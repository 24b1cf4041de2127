/**
 * The per-lump loaders of bsp/BSPRenderIO.cpp (`Mod_Load*`): each decodes one
 * lump of a BSP file held in memory into the brush model's in-memory form.
 *
 * The file is the byte sequence the header points into; the header has already
 * been read (`BSPFile.ReadHeader`). Multi-byte fields are read little-endian:
 * `LittleValue` followed by a host read gives that value on any host
 * (`BSPFile.HostIntIsLittleEndian`).
 */
module BSPRenderIO {
  import opened Bytes
  import opened Wrappers
  import opened CStrings
  import opened BSPFile
  import opened BSPIO
  import opened BSPRenderDefs
  import opened BSPRenderTree

  /**
   * The loader as written, or with its evident mistakes corrected (see the
   * visibility, mark-surface and node loaders). `fill` is the value the
   * allocator leaves in a node's `contents`, which the loader as written never
   * writes.
   */
  datatype Variant = AsWritten(fill: int32) | Corrected

  /**
   * How the host reads floating-point data: `value` gives the number a 32-bit
   * `float` pattern stands for, `length` is `glm::length` of a three-component
   * vector.
   */
  datatype FloatOps = FloatOps(value: nat -> real, length: seq<real> -> real)

  /** The `float` at byte offset `o` of a record. */
  function FloatAt(fo: FloatOps, rec: seq<byte>, o: nat): real
    requires o + 4 <= |rec|
  {
    fo.value(LeValue(rec[o..o + 4]))
  }

  /** The `short` at byte offset `o` of a record. */
  function ShortAt(rec: seq<byte>, o: nat): (r: int)
    requires o + 2 <= |rec|
    ensures -0x8000 <= r < 0x8000
  {
    Int16(rec[o..o + 2])
  }

  /** The `unsigned short` at byte offset `o` of a record. */
  function UShortAt(rec: seq<byte>, o: nat): (r: nat)
    requires o + 2 <= |rec|
    ensures r < 0x1_0000
  {
    LeValue(rec[o..o + 2])
  }

  /** The loader may read the lump: it is empty, or it lies inside the file. */
  predicate Readable(file: seq<byte>, l: Lump)
  {
    l.filelen == 0 || InFile(file, l)
  }

  /**
   * The records of a lump of `size`-byte records, as every record loader splits
   * it. A length that is not a multiple of the record size once converted to
   * `size_t` is rejected ("funny lump size"). A negative length passes that test
   * only to make the allocation of `length / size` records fail, and a lump
   * outside the file is read out of bounds: both crash.
   */
  function LumpRecords(file: seq<byte>, l: Lump, size: nat): (r: Outcome<seq<seq<byte>>>)
    requires size >= 1
    ensures r.Rejected? <==> AsSize(l.filelen) % size != 0
    ensures r.Crashed? <==> AsSize(l.filelen) % size == 0 && !Readable(file, l)
    ensures r.Done? ==> Readable(file, l) && |r.value| * size == l.filelen
    ensures r.Done? ==> forall i :: 0 <= i < |r.value| ==>
      InFile(file, l) && i * size + size <= l.filelen && r.value[i] == RecordOf(file, l, size, i)
  {
    if AsSize(l.filelen) % size != 0 then Rejected
    else if !Readable(file, l) then Crashed
    else if l.filelen == 0 then Done([])
    else
      SplitLump(file, l, size);
      Done(Records(LumpBytes(file, l), size))
  }

  /** A lump that is a whole number of records splits into the records of the file. */
  lemma SplitLump(file: seq<byte>, l: Lump, size: nat)
    requires size >= 1 && InFile(file, l) && l.filelen % size == 0
    ensures |Records(LumpBytes(file, l), size)| * size == l.filelen
    ensures forall i :: 0 <= i < |Records(LumpBytes(file, l), size)| ==>
      i * size + size <= l.filelen && Records(LumpBytes(file, l), size)[i] == RecordOf(file, l, size, i)
  {
    var data := LumpBytes(file, l);
    var rs := Records(data, size);
    WholeRecords(l.filelen, size, |rs|);
    forall i | 0 <= i < |rs|
      ensures i * size + size <= l.filelen && rs[i] == RecordOf(file, l, size, i)
    {
      RecordsAt(data, size, i);
    }
  }

  /**
   * The bytes of a lump copied as a whole (lighting, visibility, entities): `None`
   * for an empty lump; a negative length fails the allocation and a lump outside
   * the file is read out of bounds.
   */
  function LumpCopy(file: seq<byte>, l: Lump): (r: Outcome<Option<seq<byte>>>)
    ensures r.Crashed? <==> !Readable(file, l)
    ensures !r.Rejected?
    ensures r.Done? ==> (r.value.None? <==> l.filelen == 0)
    ensures r.Done? && r.value.Some? ==> InFile(file, l) && r.value.value == LumpBytes(file, l)
  {
    if l.filelen == 0 then Done(None)
    else if !InFile(file, l) then Crashed
    else Done(Some(LumpBytes(file, l)))
  }

  // ---------------------------------------------------------------- vertexes

  function DecodeVertex(fo: FloatOps, rec: seq<byte>): Vertex
    requires |rec| == 12
  {
    Vertex([FloatAt(fo, rec, 0), FloatAt(fo, rec, 4), FloatAt(fo, rec, 8)])
  }

  /** `Mod_LoadVertexes`: one vertex per 12-byte `dvertex_t`. */
  function LoadVertexes(fo: FloatOps, file: seq<byte>, l: Lump): (r: Outcome<seq<Vertex>>)
    ensures r.Rejected? <==> AsSize(l.filelen) % 12 != 0
    ensures r.Crashed? <==> AsSize(l.filelen) % 12 == 0 && !Readable(file, l)
    ensures r.Done? ==> Readable(file, l) && |r.value| * 12 == l.filelen
    ensures r.Done? ==> forall i :: 0 <= i < |r.value| ==>
      InFile(file, l) && i * 12 + 12 <= l.filelen && r.value[i] == DecodeVertex(fo, RecordOf(file, l, 12, i))
  {
    var rs :- LumpRecords(file, l, 12);
    Done(seq(|rs|, i requires 0 <= i < |rs| => DecodeVertex(fo, rs[i])))
  }

  // ------------------------------------------------------------------- edges

  /** An edge's vertex numbers, converted to `unsigned short`. */
  function DecodeEdge(rec: seq<byte>): (e: Edge)
    requires |rec| == 4
    ensures |e.v| == 2 && e.v[0] < 0x1_0000 && e.v[1] < 0x1_0000
  {
    Edge([UShortAt(rec, 0), UShortAt(rec, 2)])
  }

  /** `Mod_LoadEdges`: one edge per 4-byte `dedge_t`. */
  function LoadEdges(file: seq<byte>, l: Lump): (r: Outcome<seq<Edge>>)
    ensures r.Rejected? <==> AsSize(l.filelen) % 4 != 0
    ensures r.Crashed? <==> AsSize(l.filelen) % 4 == 0 && !Readable(file, l)
    ensures r.Done? ==> Readable(file, l) && |r.value| * 4 == l.filelen
    ensures r.Done? ==> forall i :: 0 <= i < |r.value| ==>
      InFile(file, l) && i * 4 + 4 <= l.filelen && r.value[i] == DecodeEdge(RecordOf(file, l, 4, i))
  {
    var rs :- LumpRecords(file, l, 4);
    Done(seq(|rs|, i requires 0 <= i < |rs| => DecodeEdge(rs[i])))
  }

  // --------------------------------------------------------------- surfedges

  /** `Mod_LoadSurfedges`: one signed edge number per 4-byte `int`. */
  function LoadSurfedges(file: seq<byte>, l: Lump): (r: Outcome<seq<int>>)
    ensures r.Rejected? <==> AsSize(l.filelen) % 4 != 0
    ensures r.Crashed? <==> AsSize(l.filelen) % 4 == 0 && !Readable(file, l)
    ensures r.Done? ==> Readable(file, l) && |r.value| * 4 == l.filelen
    ensures r.Done? ==> forall i :: 0 <= i < |r.value| ==>
      InFile(file, l) && i * 4 + 4 <= l.filelen && r.value[i] == Int32(RecordOf(file, l, 4, i))
  {
    var rs :- LumpRecords(file, l, 4);
    Done(seq(|rs|, i requires 0 <= i < |rs| => Int32(rs[i])))
  }

  // ---------------------------------------------------------------- textures

  /**
   * `Mod_LoadTextures`: an empty lump clears the texture list; otherwise the
   * loader returns before reading the lump, leaving the list it was given.
   */
  function LoadTextures(l: Lump, prior: Option<seq<Option<Texture>>>): (r: Option<seq<Option<Texture>>>)
    ensures l.filelen == 0 ==> r.None?
    ensures l.filelen != 0 ==> r == prior
  {
    if l.filelen == 0 then None else prior
  }

  // ---------------------------------------------------------------- lighting

  /** `Mod_LoadLighting`: the lighting bytes, none for an empty lump. */
  function LoadLighting(file: seq<byte>, l: Lump): (r: Outcome<Option<seq<byte>>>)
    ensures r.Crashed? <==> !Readable(file, l)
    ensures !r.Rejected?
    ensures r.Done? ==> (r.value.None? <==> l.filelen == 0)
    ensures r.Done? && r.value.Some? ==> InFile(file, l) && r.value.value == LumpBytes(file, l)
  {
    LumpCopy(file, l)
  }

  // ------------------------------------------------------------------ planes

  /** Bit `j` (0, 1 or 2) of a byte. */
  function Bit(v: byte, j: nat): bool
    requires j < 3
  {
    (v / [1, 2, 4][j]) % 2 == 1
  }

  /** `signbits`: bit `j` set for a negative component `j`. */
  function SignBits(normal: seq<real>): (b: byte)
    requires |normal| == 3
    ensures b < 8
    ensures forall j :: 0 <= j < 3 ==> (Bit(b, j) <==> normal[j] < 0.0)
  {
    (if normal[0] < 0.0 then 1 else 0)
    + (if normal[1] < 0.0 then 2 else 0)
    + (if normal[2] < 0.0 then 4 else 0)
  }

  /** A plane: normal, distance, the `int` type stored into a byte, and its sign bits. */
  function DecodePlane(fo: FloatOps, rec: seq<byte>): (p: Plane)
    requires |rec| == 20
    ensures |p.normal| == 3
    ensures forall j :: 0 <= j < 3 ==> (Bit(p.signbits, j) <==> p.normal[j] < 0.0)
    ensures p.ptype == IntAt(rec, 16) % 256
  {
    var normal := [FloatAt(fo, rec, 0), FloatAt(fo, rec, 4), FloatAt(fo, rec, 8)];
    Plane(normal, FloatAt(fo, rec, 12), IntAt(rec, 16) % 256, SignBits(normal))
  }

  /**
   * `Mod_LoadPlanes`: one plane per 20-byte `dplane_t`, in storage for twice as
   * many planes.
   */
  function LoadPlanes(fo: FloatOps, file: seq<byte>, l: Lump): (r: Outcome<(seq<Plane>, nat)>)
    ensures r.Rejected? <==> AsSize(l.filelen) % 20 != 0
    ensures r.Crashed? <==> AsSize(l.filelen) % 20 == 0 && !Readable(file, l)
    ensures r.Done? ==> Readable(file, l) && |r.value.0| * 20 == l.filelen && r.value.1 == 2 * |r.value.0|
    ensures r.Done? ==> forall i :: 0 <= i < |r.value.0| ==>
      InFile(file, l) && i * 20 + 20 <= l.filelen && r.value.0[i] == DecodePlane(fo, RecordOf(file, l, 20, i))
  {
    var rs :- LumpRecords(file, l, 20);
    Done((seq(|rs|, i requires 0 <= i < |rs| => DecodePlane(fo, rs[i])), 2 * |rs|))
  }

  // ----------------------------------------------------------------- texinfo

  /** `mipadjust` from the mean length of the two texture axes. */
  function MipAdjust(len: real): (m: nat)
    ensures 1 <= m <= 4
    ensures len < 0.32 <==> m == 4
    ensures m == 1 <==> len >= 0.99
  {
    if len < 0.32 then 4
    else if len < 0.49 then 3
    else if len < 0.99 then 2
    else 1
  }

  /** The `miptex` field of a texinfo record. */
  function MiptexOf(rec: seq<byte>): int
    requires |rec| == 40
  {
    IntAt(rec, 32)
  }

  /**
   * A texinfo record's texture: `Mod_LoadTexinfo` reads `textures[miptex]`
   * without a lower bound check (a negative index crashes) and rejects an index
   * at or past the texture count.
   */
  function TexinfoTexture(textures: Option<seq<Option<Texture>>>, rec: seq<byte>): (r: Outcome<Option<Texture>>)
    requires |rec| == 40
    ensures textures.None? ==> r == Done(None)
    ensures textures.Some? ==> (r.Rejected? <==> MiptexOf(rec) >= |textures.value|)
    ensures textures.Some? ==> (r.Crashed? <==> MiptexOf(rec) < 0)
    ensures textures.Some? && r.Done? ==> r.value == textures.value[MiptexOf(rec)]
  {
    match textures
    case None => Done(None)
    case Some(ts) =>
      var m := MiptexOf(rec);
      if m >= |ts| then Rejected
      else if m < 0 then Crashed
      else Done(ts[m])
  }

  /**
   * One texture info: its axes, `mipadjust`, its texture, and its flags, which
   * are cleared when the texture is the placeholder.
   */
  function DecodeTexinfo(fo: FloatOps, textures: Option<seq<Option<Texture>>>, rec: seq<byte>): (r: Outcome<TexInfo>)
    requires |rec| == 40
    ensures !r.Done? <==> !TexinfoTexture(textures, rec).Done?
    ensures r.Rejected? <==> TexinfoTexture(textures, rec).Rejected?
    ensures r.Done? ==> r.value.texture == TexinfoTexture(textures, rec).value
    ensures r.Done? ==> r.value.flags == if r.value.texture.None? then 0 else IntAt(rec, 36)
    ensures r.Done? ==> |r.value.vecs| == 8 && 1 <= r.value.mipadjust <= 4
  {
    var vecs := seq(8, j requires 0 <= j < 8 => FloatAt(fo, rec, 4 * j));
    var len1 := fo.length(vecs[0..3]);
    var len2 := fo.length(vecs[4..7]);
    var texture :- TexinfoTexture(textures, rec);
    Done(TexInfo(vecs, MipAdjust((len1 + len2) / 2.0), texture,
                 if texture.None? then 0 else IntAt(rec, 36)))
  }

  /** A texinfo record the loader accepts. */
  predicate TexinfoOk(textures: Option<seq<Option<Texture>>>, rec: seq<byte>)
    requires |rec| == 40
  {
    TexinfoTexture(textures, rec).Done?
  }

  /** Texinfo record `k` lies in the file and names a texture the loader accepts. */
  predicate TexinfoGood(textures: Option<seq<Option<Texture>>>, file: seq<byte>, l: Lump, k: nat)
  {
    RecordInFile(file, l, 40, k) && TexinfoOk(textures, RecordOf(file, l, 40, k))
  }

  /** Texinfo record `k` lies in the file and its texture index is at or past the count. */
  predicate TexinfoRejects(textures: Option<seq<Option<Texture>>>, file: seq<byte>, l: Lump, k: nat)
  {
    RecordInFile(file, l, 40, k) && TexinfoTexture(textures, RecordOf(file, l, 40, k)).Rejected?
  }

  /** Reading texinfo record `k` faults: it runs past the file, or its texture index is negative. */
  predicate TexinfoCrashes(textures: Option<seq<Option<Texture>>>, file: seq<byte>, l: Lump, k: nat)
  {
    !RecordInFile(file, l, 40, k) || TexinfoTexture(textures, RecordOf(file, l, 40, k)).Crashed?
  }

  /** Texinfo records `i` up to `k` are all good. */
  predicate TexinfosGood(textures: Option<seq<Option<Texture>>>, file: seq<byte>, l: Lump, i: nat, k: nat)
  {
    forall j :: i <= j < k ==> TexinfoGood(textures, file, l, j)
  }

  /** Past a good record `i`, the first bad record from `i` on is the first one from `i + 1` on. */
  lemma TexinfosShift(textures: Option<seq<Option<Texture>>>, file: seq<byte>, l: Lump, count: nat, i: nat)
    requires i < count && TexinfoGood(textures, file, l, i)
    ensures (exists k :: i <= k < count && TexinfosGood(textures, file, l, i, k) && TexinfoRejects(textures, file, l, k))
      <==> (exists k :: i + 1 <= k < count && TexinfosGood(textures, file, l, i + 1, k) && TexinfoRejects(textures, file, l, k))
    ensures (exists k :: i <= k < count && TexinfosGood(textures, file, l, i, k) && TexinfoCrashes(textures, file, l, k))
      <==> (exists k :: i + 1 <= k < count && TexinfosGood(textures, file, l, i + 1, k) && TexinfoCrashes(textures, file, l, k))
    ensures TexinfosGood(textures, file, l, i, count) <==> TexinfosGood(textures, file, l, i + 1, count)
  {
    assert forall k :: i < k <= count ==>
      (TexinfosGood(textures, file, l, i, k) <==> TexinfosGood(textures, file, l, i + 1, k));
  }

  /**
   * The loop of `Mod_LoadTexinfo` from record `i` of `count` on, one record at
   * a time: a record outside the file is read out of bounds, and the first bad
   * texture index ends the loop before any later record is read.
   */
  function TexinfosFrom(fo: FloatOps, textures: Option<seq<Option<Texture>>>, file: seq<byte>, l: Lump, count: nat, i: nat)
    : (r: Outcome<seq<TexInfo>>)
    requires i <= count
    ensures r.Done? <==> TexinfosGood(textures, file, l, i, count)
    ensures r.Rejected? <==>
      exists k :: i <= k < count && TexinfosGood(textures, file, l, i, k) && TexinfoRejects(textures, file, l, k)
    ensures r.Crashed? <==>
      exists k :: i <= k < count && TexinfosGood(textures, file, l, i, k) && TexinfoCrashes(textures, file, l, k)
    ensures r.Done? ==> |r.value| == count - i
    ensures r.Done? ==> forall k :: i <= k < count ==>
      RecordInFile(file, l, 40, k) && Done(r.value[k - i]) == DecodeTexinfo(fo, textures, RecordOf(file, l, 40, k))
    decreases count - i
  {
    if i == count then Done([])
    else if !TexinfoGood(textures, file, l, i) then
      assert TexinfosGood(textures, file, l, i, i);
      assert !TexinfosGood(textures, file, l, i, count);
      if TexinfoRejects(textures, file, l, i) then Rejected
      else
        assert TexinfoCrashes(textures, file, l, i);
        Crashed
    else
      TexinfosShift(textures, file, l, count, i);
      var head := DecodeTexinfo(fo, textures, RecordOf(file, l, 40, i));
      var tail :- TexinfosFrom(fo, textures, file, l, count, i + 1);
      Done([head.value] + tail)
  }

  /**
   * `Mod_LoadTexinfo`: one texture info per 40-byte `texinfo_t`, bound to the
   * model's textures. With no texture list every info gets the placeholder. A
   * negative length passes the size test only to make the allocation fail.
   */
  function LoadTexinfo(fo: FloatOps, textures: Option<seq<Option<Texture>>>, file: seq<byte>, l: Lump): (r: Outcome<seq<TexInfo>>)
    ensures AsSize(l.filelen) % 40 != 0 ==> r.Rejected?
    ensures AsSize(l.filelen) % 40 == 0 && l.filelen < 0 ==> r.Crashed?
    ensures 0 <= l.filelen && l.filelen % 40 == 0 ==>
      (r.Done? <==> TexinfosGood(textures, file, l, 0, l.filelen / 40))
    ensures 0 <= l.filelen && l.filelen % 40 == 0 ==>
      (r.Rejected? <==>
        exists k :: 0 <= k < l.filelen / 40 && TexinfosGood(textures, file, l, 0, k) && TexinfoRejects(textures, file, l, k))
    ensures 0 <= l.filelen && l.filelen % 40 == 0 ==>
      (r.Crashed? <==>
        exists k :: 0 <= k < l.filelen / 40 && TexinfosGood(textures, file, l, 0, k) && TexinfoCrashes(textures, file, l, k))
    ensures r.Done? ==> Readable(file, l) && |r.value| * 40 == l.filelen
    ensures r.Done? ==> forall i :: 0 <= i < |r.value| ==>
      InFile(file, l) && i * 40 + 40 <= l.filelen && Done(r.value[i]) == DecodeTexinfo(fo, textures, RecordOf(file, l, 40, i))
    ensures r.Done? && textures.None? ==> forall i :: 0 <= i < |r.value| ==>
      r.value[i].texture.None? && r.value[i].flags == 0
  {
    if AsSize(l.filelen) % 40 != 0 then Rejected
    else if l.filelen < 0 then Crashed
    else
      var count := l.filelen / 40;
      var r := TexinfosFrom(fo, textures, file, l, count, 0);
      assert r.Done? && count > 0 ==> RecordInFile(file, l, 40, count - 1);
      r
  }

  /**
   * Likewise for texture infos: a texture index past the list is rejected
   * before the record that runs past the end of the file is read.
   */
  lemma BadTexinfoBeforeFileEnd(fo: FloatOps)
    ensures LoadTexinfo(fo, Some([]), seq(40, _ => 0), Lump(0, 80)).Rejected?
    ensures !Readable(seq(40, _ => 0), Lump(0, 80))
  {
    var file: seq<byte> := seq(40, _ => 0);
    assert RecordInFile(file, Lump(0, 80), 40, 0);
    var rec := RecordOf(file, Lump(0, 80), 40, 0);
    assert rec[32..36] == [0, 0, 0, 0];
    assert LeValue([0, 0, 0, 0]) == 0 by {
      assert [0, 0, 0, 0][1..] == [0, 0, 0] && [0, 0, 0][1..] == [0, 0] && [0, 0][1..] == [0];
      assert LeValue([0]) == 0 + 256 * LeValue([]);
    }
    assert MiptexOf(rec) == 0;
    assert TexinfoRejects(Some([]), file, Lump(0, 80), 0);
    assert TexinfosGood(Some([]), file, Lump(0, 80), 0, 0);
  }

  // ------------------------------------------------------------------- faces

  /** The flags `Mod_LoadFaces` gives a surface from its side and its texture's name. */
  function FaceFlags(side: int, name: string): (f: Flags)
    ensures (f & SURF_PLANEBACK != 0) <==> side != 0
    ensures (f & SURF_DRAWSKY != 0) <==> HasPrefix(CStr(name), "sky")
    ensures (f & SURF_DRAWTURB != 0) <==> !HasPrefix(CStr(name), "sky") && HasPrefix(CStr(name), "*")
    ensures (f & SURF_DRAWTILED != 0) <==> HasPrefix(CStr(name), "sky") || HasPrefix(CStr(name), "*")
    ensures f & !(SURF_PLANEBACK | SURF_DRAWSKY | SURF_DRAWTURB | SURF_DRAWTILED) == 0
  {
    var back: Flags := if side != 0 then SURF_PLANEBACK else 0;
    if HasPrefix(CStr(name), "sky") then back | SURF_DRAWSKY | SURF_DRAWTILED
    else if HasPrefix(CStr(name), "*") then back | SURF_DRAWTURB | SURF_DRAWTILED
    else back
  }

  /** The texture bounds of a turbulent surface. */
  const TurbulentBounds: TexBounds := TexBounds([-8192, -8192], [16384, 16384])

  /** A turbulent surface's texture spans -8192 .. 8192 on both axes. */
  lemma TurbulentBoundsSpan()
    ensures forall i :: 0 <= i < 2 ==>
      TurbulentBounds.texturemins[i] == -8192 && TurbulentBounds.texturemins[i] + TurbulentBounds.extents[i] == 8192
  {
  }

  /** The `texinfo` field of a face record. */
  function FaceTexinfo(rec: seq<byte>): int
    requires |rec| == 20
  {
    ShortAt(rec, 10)
  }

  /** The face's texture info exists and has a texture whose name can be read. */
  predicate FaceOk(texinfo: seq<TexInfo>, rec: seq<byte>)
    requires |rec| == 20
  {
    0 <= FaceTexinfo(rec) < |texinfo| && texinfo[FaceTexinfo(rec)].texture.Some?
  }

  /**
   * One surface: plane, edges and texture info by index, its light styles, the
   * offset of its lighting (none for -1), and flags and bounds by texture name.
   */
  function DecodeFace(texinfo: seq<TexInfo>, rec: seq<byte>): (s: Surface)
    requires |rec| == 20 && FaceOk(texinfo, rec)
    ensures s.texinfo == FaceTexinfo(rec)
    ensures s.flags == FaceFlags(ShortAt(rec, 2), texinfo[FaceTexinfo(rec)].texture.value.name)
    ensures s.samples == VisOffset(IntAt(rec, 16))
    ensures s.bounds.Some? <==> s.flags & SURF_DRAWTURB != 0
    ensures s.bounds.Some? ==> s.bounds.value == TurbulentBounds
  {
    var flags := FaceFlags(ShortAt(rec, 2), texinfo[FaceTexinfo(rec)].texture.value.name);
    Surface(ShortAt(rec, 0), flags, IntAt(rec, 4), ShortAt(rec, 8), FaceTexinfo(rec),
            rec[12..16], VisOffset(IntAt(rec, 16)),
            if flags & SURF_DRAWTURB != 0 then Some(TurbulentBounds) else None)
  }

  /**
   * `Mod_LoadFaces`: one surface per 20-byte `dface_t`. A face whose texture
   * info is outside the list, or has the (null) placeholder texture, has its
   * texture name read through a bad pointer.
   */
  function LoadFaces(texinfo: seq<TexInfo>, file: seq<byte>, l: Lump): (r: Outcome<seq<Surface>>)
    ensures r.Rejected? <==> AsSize(l.filelen) % 20 != 0
    ensures r.Done? <==> (LumpRecords(file, l, 20).Done?
      && forall i :: 0 <= i < |LumpRecords(file, l, 20).value| ==> FaceOk(texinfo, LumpRecords(file, l, 20).value[i]))
    ensures r.Done? ==> Readable(file, l) && |r.value| * 20 == l.filelen
    ensures r.Done? ==> forall i :: 0 <= i < |r.value| ==>
      0 <= r.value[i].texinfo < |texinfo| && texinfo[r.value[i].texinfo].texture.Some?
    ensures r.Done? ==> forall i :: 0 <= i < |r.value| ==>
      InFile(file, l) && i * 20 + 20 <= l.filelen && FaceOk(texinfo, RecordOf(file, l, 20, i))
      && r.value[i] == DecodeFace(texinfo, RecordOf(file, l, 20, i))
  {
    var rs :- LumpRecords(file, l, 20);
    if forall i :: 0 <= i < |rs| ==> FaceOk(texinfo, rs[i]) then
      Done(seq(|rs|, i requires 0 <= i < |rs| => DecodeFace(texinfo, rs[i])))
    else Crashed
  }

  // ----------------------------------------------------------- marksurfaces

  /**
   * A mark-surface entry: the loader as written reads it as a `short`, so
   * entries from 32768 up come out negative; the corrected loader reads the
   * `unsigned short` the format stores.
   */
  function MarkEntry(v: Variant, rec: seq<byte>): (j: int)
    requires |rec| == 2
    ensures v.Corrected? ==> 0 <= j < 0x1_0000
  {
    if v.AsWritten? then ShortAt(rec, 0) else UShortAt(rec, 0)
  }

  /** Mark-surface entry `k` lies in the file and names a surface. */
  predicate MarkGood(v: Variant, nsurfaces: nat, file: seq<byte>, l: Lump, k: nat)
  {
    RecordInFile(file, l, 2, k) && MarkEntry(v, RecordOf(file, l, 2, k)) < nsurfaces
  }

  /** Mark-surface entry `k` lies in the file and is at or past the surface count. */
  predicate MarkRejects(v: Variant, nsurfaces: nat, file: seq<byte>, l: Lump, k: nat)
  {
    RecordInFile(file, l, 2, k) && MarkEntry(v, RecordOf(file, l, 2, k)) >= nsurfaces
  }

  /** Entries `i` up to `k` are all good. */
  predicate MarksGood(v: Variant, nsurfaces: nat, file: seq<byte>, l: Lump, i: nat, k: nat)
  {
    forall j :: i <= j < k ==> MarkGood(v, nsurfaces, file, l, j)
  }

  /** Past a good entry `i`, the first bad entry from `i` on is the first one from `i + 1` on. */
  lemma MarksShift(v: Variant, nsurfaces: nat, file: seq<byte>, l: Lump, count: nat, i: nat)
    requires i < count && MarkGood(v, nsurfaces, file, l, i)
    ensures (exists k :: i <= k < count && MarksGood(v, nsurfaces, file, l, i, k) && MarkRejects(v, nsurfaces, file, l, k))
      <==> (exists k :: i + 1 <= k < count && MarksGood(v, nsurfaces, file, l, i + 1, k) && MarkRejects(v, nsurfaces, file, l, k))
    ensures (exists k :: i <= k < count && MarksGood(v, nsurfaces, file, l, i, k) && !RecordInFile(file, l, 2, k))
      <==> (exists k :: i + 1 <= k < count && MarksGood(v, nsurfaces, file, l, i + 1, k) && !RecordInFile(file, l, 2, k))
    ensures MarksGood(v, nsurfaces, file, l, i, count) <==> MarksGood(v, nsurfaces, file, l, i + 1, count)
  {
    assert forall k :: i < k <= count ==>
      (MarksGood(v, nsurfaces, file, l, i, k) <==> MarksGood(v, nsurfaces, file, l, i + 1, k));
  }

  /**
   * The loop of `Mod_LoadMarksurfaces` from entry `i` of `count` on, one entry
   * at a time: an entry outside the file is read out of bounds, and the first
   * entry at or past `nsurfaces` ends the loop before any later entry is read.
   */
  function MarksFrom(v: Variant, nsurfaces: nat, file: seq<byte>, l: Lump, count: nat, i: nat): (r: Outcome<seq<int>>)
    requires i <= count
    ensures r.Done? <==> MarksGood(v, nsurfaces, file, l, i, count)
    ensures r.Rejected? <==>
      exists k :: i <= k < count && MarksGood(v, nsurfaces, file, l, i, k) && MarkRejects(v, nsurfaces, file, l, k)
    ensures r.Crashed? <==>
      exists k :: i <= k < count && MarksGood(v, nsurfaces, file, l, i, k) && !RecordInFile(file, l, 2, k)
    ensures r.Done? ==> |r.value| == count - i
    ensures r.Done? ==> forall k :: i <= k < count ==>
      RecordInFile(file, l, 2, k) && r.value[k - i] == MarkEntry(v, RecordOf(file, l, 2, k))
    decreases count - i
  {
    if i == count then Done([])
    else if !MarkGood(v, nsurfaces, file, l, i) then
      assert MarksGood(v, nsurfaces, file, l, i, i);
      assert !MarksGood(v, nsurfaces, file, l, i, count);
      if RecordInFile(file, l, 2, i) then Rejected else Crashed
    else
      MarksShift(v, nsurfaces, file, l, count, i);
      var tail :- MarksFrom(v, nsurfaces, file, l, count, i + 1);
      Done([MarkEntry(v, RecordOf(file, l, 2, i))] + tail)
  }

  /**
   * `Mod_LoadMarksurfaces`: one surface number per 2-byte entry; an entry at or
   * past the surface count is rejected ("bad surface number"). A negative
   * length passes the size test only to make the allocation fail.
   */
  function LoadMarksurfaces(v: Variant, nsurfaces: nat, file: seq<byte>, l: Lump): (r: Outcome<seq<int>>)
    ensures AsSize(l.filelen) % 2 != 0 ==> r.Rejected?
    ensures AsSize(l.filelen) % 2 == 0 && l.filelen < 0 ==> r.Crashed?
    ensures 0 <= l.filelen && l.filelen % 2 == 0 ==>
      (r.Done? <==> MarksGood(v, nsurfaces, file, l, 0, l.filelen / 2))
    ensures 0 <= l.filelen && l.filelen % 2 == 0 ==>
      (r.Rejected? <==>
        exists k :: 0 <= k < l.filelen / 2 && MarksGood(v, nsurfaces, file, l, 0, k) && MarkRejects(v, nsurfaces, file, l, k))
    ensures 0 <= l.filelen && l.filelen % 2 == 0 ==>
      (r.Crashed? <==>
        exists k :: 0 <= k < l.filelen / 2 && MarksGood(v, nsurfaces, file, l, 0, k) && !RecordInFile(file, l, 2, k))
    ensures r.Done? ==> Readable(file, l) && |r.value| * 2 == l.filelen
    ensures r.Done? ==> forall i :: 0 <= i < |r.value| ==> r.value[i] < nsurfaces
    ensures r.Done? && v.Corrected? ==> forall i :: 0 <= i < |r.value| ==> 0 <= r.value[i]
    ensures r.Done? ==> forall i :: 0 <= i < |r.value| ==>
      InFile(file, l) && i * 2 + 2 <= l.filelen && r.value[i] == MarkEntry(v, RecordOf(file, l, 2, i))
  {
    if AsSize(l.filelen) % 2 != 0 then Rejected
    else if l.filelen < 0 then Crashed
    else
      var count := l.filelen / 2;
      var r := MarksFrom(v, nsurfaces, file, l, count, 0);
      assert r.Done? && count > 0 ==> RecordInFile(file, l, 2, count - 1);
      assert r.Done? ==> forall k :: 0 <= k < count ==>
        MarkGood(v, nsurfaces, file, l, k) && r.value[k] == MarkEntry(v, RecordOf(file, l, 2, k));
      r
  }

  /**
   * The loop stops at the first bad entry: a lump that runs past the end of
   * the file is rejected, not faulted, when an entry inside the file already
   * names no surface.
   */
  lemma BadMarkBeforeFileEnd()
    ensures LoadMarksurfaces(Corrected, 1, [0, 0, 0, 0, 0, 0, 0, 0, 5, 0], Lump(8, 4)).Rejected?
    ensures !Readable([0, 0, 0, 0, 0, 0, 0, 0, 5, 0], Lump(8, 4))
  {
    var file: seq<byte> := [0, 0, 0, 0, 0, 0, 0, 0, 5, 0];
    assert RecordOf(file, Lump(8, 4), 2, 0) == [5, 0];
    assert MarkRejects(Corrected, 1, file, Lump(8, 4), 0);
    assert MarksGood(Corrected, 1, file, Lump(8, 4), 0, 0);
  }

  // -------------------------------------------------------------- visibility

  /**
   * `Mod_LoadVisibility`. As written it fails on an empty lump, where the
   * lighting and entity loaders succeed with no data; corrected, an empty lump
   * gives no visibility data.
   */
  function LoadVisibility(v: Variant, file: seq<byte>, l: Lump): (r: Outcome<Option<seq<byte>>>)
    ensures v.AsWritten? && l.filelen == 0 ==> r.Rejected?
    ensures v.Corrected? || l.filelen != 0 ==> r == LumpCopy(file, l)
  {
    if v.AsWritten? && l.filelen == 0 then Rejected else LumpCopy(file, l)
  }

  // ------------------------------------------------------------------- leafs

  /**
   * One leaf: contents, visibility offset (none for -1), bounds, its range of
   * mark surfaces and its ambient levels.
   */
  function DecodeLeaf(rec: seq<byte>): (leaf: Leaf)
    requires |rec| == 28
    ensures leaf.contents == IntAt(rec, 0) && leaf.vis == VisOffset(IntAt(rec, 4))
    ensures leaf.firstmarksurface < 0x1_0000 && leaf.nummarksurfaces < 0x1_0000
    ensures |leaf.mins| == 3 && |leaf.maxs| == 3 && |leaf.ambient| == NUM_AMBIENTS
  {
    Leaf(IntAt(rec, 0),
         [ShortAt(rec, 8), ShortAt(rec, 10), ShortAt(rec, 12)],
         [ShortAt(rec, 14), ShortAt(rec, 16), ShortAt(rec, 18)],
         VisOffset(IntAt(rec, 4)), UShortAt(rec, 20), UShortAt(rec, 22), rec[24..28])
  }

  /** The leaf records of a lump, decoded. */
  function DecodeLeafs(file: seq<byte>, l: Lump): (r: Outcome<seq<Leaf>>)
    ensures r.Rejected? <==> AsSize(l.filelen) % 28 != 0
    ensures r.Crashed? <==> AsSize(l.filelen) % 28 == 0 && !Readable(file, l)
    ensures r.Done? ==> Readable(file, l) && |r.value| * 28 == l.filelen
    ensures r.Done? ==> forall i :: 0 <= i < |r.value| ==>
      InFile(file, l) && i * 28 + 28 <= l.filelen && r.value[i] == DecodeLeaf(RecordOf(file, l, 28, i))
  {
    var rs :- LumpRecords(file, l, 28);
    Done(seq(|rs|, i requires 0 <= i < |rs| => DecodeLeaf(rs[i])))
  }

  /**
   * `Mod_LoadLeafs`: one leaf per 28-byte `dleaf_t`; the surfaces the mark
   * entries of each leaf whose contents are not CONTENTS_EMPTY name get
   * SURF_UNDERWATER. A mark entry outside the list, or naming no surface, is
   * written through a bad pointer.
   */
  function LoadLeafs(surfaces: seq<Surface>, marks: seq<int>, file: seq<byte>, l: Lump): (r: Outcome<(seq<Leaf>, seq<Surface>)>)
    ensures r.Rejected? <==> AsSize(l.filelen) % 28 != 0
    ensures r.Done? <==> (DecodeLeafs(file, l).Done? && AllLeafMarksOk(|surfaces|, marks, DecodeLeafs(file, l).value))
    ensures r.Done? ==> (r.value.0 == DecodeLeafs(file, l).value
      && r.value.1 == Underwater(surfaces, Marked(marks, r.value.0)))
    ensures r.Done? ==> AllLeafMarksOk(|surfaces|, marks, r.value.0) && |r.value.1| == |surfaces|
  {
    match DecodeLeafs(file, l)
    case Rejected => Rejected
    case Crashed => Crashed
    case Done(leafs) =>
      SpreadUnderwaterMarks(surfaces, marks, leafs);
      match SpreadUnderwater(surfaces, marks, leafs)
      case Done(flagged) => Done((leafs, flagged))
      case _ => Crashed
  }

  // ------------------------------------------------------------------- nodes

  /**
   * One node: its plane, its children (node or leaf, by sign), bounds and range
   * of surfaces. The corrected loader sets `contents` to 0, as the node/leaf
   * distinction requires; as written it is whatever the allocation left.
   */
  function DecodeNode(v: Variant, rec: seq<byte>): (n: Node)
    requires |rec| == 24
    ensures |n.children| == 2
    ensures n.children[0] == DecodeChild(ShortAt(rec, 4)) && n.children[1] == DecodeChild(ShortAt(rec, 6))
    ensures n.plane == IntAt(rec, 0)
    ensures n.contents == if v.Corrected? then 0 else v.fill
  {
    Node(if v.Corrected? then 0 else v.fill,
         [ShortAt(rec, 8), ShortAt(rec, 10), ShortAt(rec, 12)],
         [ShortAt(rec, 14), ShortAt(rec, 16), ShortAt(rec, 18)],
         IntAt(rec, 0),
         [DecodeChild(ShortAt(rec, 4)), DecodeChild(ShortAt(rec, 6))],
         UShortAt(rec, 20), UShortAt(rec, 22))
  }

  /** `Mod_LoadNodes`: one node per 24-byte `dnode_t`, then the parent links from node 0. */
  function LoadNodes(v: Variant, leafs: seq<Leaf>, file: seq<byte>, l: Lump): (r: Outcome<(seq<Node>, Links)>)
    ensures AsSize(l.filelen) % 24 != 0 ==> r.Rejected?
    ensures r.Done? ==> Readable(file, l) && |r.value.0| * 24 == l.filelen && |r.value.0| > 0
    ensures r.Done? ==> forall i :: 0 <= i < |r.value.0| ==> r.value.0[i].contents == if v.Corrected? then 0 else v.fill
    ensures r.Done? ==> Shaped(r.value.0) && forall i :: 0 <= i < |r.value.0| ==>
      InFile(file, l) && i * 24 + 24 <= l.filelen && r.value.0[i] == DecodeNode(v, RecordOf(file, l, 24, i))
    ensures r.Done? ==> SetParent(r.value.0, leafs) == Done(r.value.1)
  {
    var rs :- LumpRecords(file, l, 24);
    var nodes := DecodeNodes(v, rs);
    var links :- SetParent(nodes, leafs);
    Done((nodes, links))
  }

  /** Every 24-byte record decoded as a node. */
  function DecodeNodes(v: Variant, rs: seq<seq<byte>>): (nodes: seq<Node>)
    requires forall i :: 0 <= i < |rs| ==> |rs[i]| == 24
    ensures |nodes| == |rs| && Shaped(nodes)
    ensures forall i :: 0 <= i < |rs| ==>
      nodes[i] == DecodeNode(v, rs[i]) && nodes[i].contents == if v.Corrected? then 0 else v.fill
  {
    seq(|rs|, i requires 0 <= i < |rs| => DecodeNode(v, rs[i]))
  }

  // --------------------------------------------------------------- clipnodes

  function DecodeClipNode(rec: seq<byte>): (c: ClipNode)
    requires |rec| == 8
    ensures |c.children| == 2
  {
    ClipNode(IntAt(rec, 0), [ShortAt(rec, 4), ShortAt(rec, 6)])
  }

  /** `Mod_LoadClipnodes`: one clip node per 8-byte `dclipnode_t`. */
  function LoadClipnodes(file: seq<byte>, l: Lump): (r: Outcome<seq<ClipNode>>)
    ensures r.Rejected? <==> AsSize(l.filelen) % 8 != 0
    ensures r.Crashed? <==> AsSize(l.filelen) % 8 == 0 && !Readable(file, l)
    ensures r.Done? ==> Readable(file, l) && |r.value| * 8 == l.filelen
    ensures r.Done? ==> forall i :: 0 <= i < |r.value| ==>
      InFile(file, l) && i * 8 + 8 <= l.filelen && r.value[i] == DecodeClipNode(RecordOf(file, l, 8, i))
  {
    var rs :- LumpRecords(file, l, 8);
    Done(seq(|rs|, i requires 0 <= i < |rs| => DecodeClipNode(rs[i])))
  }

  /**
   * A clipping hull over the model's clip nodes, spanning all of them, with the
   * given box: hulls 1 and 2 share the one clip-node list.
   */
  function ClipHull(prior: Hull, clipnodes: seq<ClipNode>, mins: seq<real>, maxs: seq<real>): (h: Hull)
    ensures h.clipnodes == clipnodes && h.firstclipnode == 0 && h.lastclipnode == |clipnodes| - 1
    ensures h.clipMins == mins && h.clipMaxs == maxs
  {
    prior.(clipnodes := clipnodes, firstclipnode := 0, lastclipnode := |clipnodes| - 1,
           clipMins := mins, clipMaxs := maxs)
  }

  const Hull1Mins: seq<real> := [-16.0, -16.0, -24.0]
  const Hull1Maxs: seq<real> := [16.0, 16.0, 32.0]
  const Hull2Mins: seq<real> := [-32.0, -32.0, -24.0]
  const Hull2Maxs: seq<real> := [32.0, 32.0, 64.0]

  // ---------------------------------------------------------------- entities

  /** `Mod_LoadEntities`: the entity text, none for an empty lump. */
  function LoadEntities(file: seq<byte>, l: Lump): (r: Outcome<Option<seq<byte>>>)
    ensures r.Crashed? <==> !Readable(file, l)
    ensures !r.Rejected?
    ensures r.Done? ==> (r.value.None? <==> l.filelen == 0)
    ensures r.Done? && r.value.Some? ==> InFile(file, l) && r.value.value == LumpBytes(file, l)
  {
    LumpCopy(file, l)
  }

  // --------------------------------------------------------------- submodels

  /** One sub-model, its bounds spread by one unit on every side. */
  function DecodeSubmodel(fo: FloatOps, rec: seq<byte>): (m: Submodel)
    requires |rec| == 64
    ensures |m.mins| == 3 && |m.maxs| == 3 && |m.origin| == 3 && |m.headnode| == MAX_MAP_HULLS
    ensures forall j :: 0 <= j < 3 ==>
      m.mins[j] == FloatAt(fo, rec, 4 * j) - 1.0 && m.maxs[j] == FloatAt(fo, rec, 12 + 4 * j) + 1.0
  {
    Submodel(seq(3, j requires 0 <= j < 3 => FloatAt(fo, rec, 4 * j) - 1.0),
             seq(3, j requires 0 <= j < 3 => FloatAt(fo, rec, 12 + 4 * j) + 1.0),
             seq(3, j requires 0 <= j < 3 => FloatAt(fo, rec, 24 + 4 * j)),
             seq(MAX_MAP_HULLS, j requires 0 <= j < MAX_MAP_HULLS => IntAt(rec, 36 + 4 * j)),
             IntAt(rec, 52), IntAt(rec, 56), IntAt(rec, 60))
  }

  /** `Mod_LoadSubmodels`: one sub-model per 64-byte `dmodel_t`. */
  function LoadSubmodels(fo: FloatOps, file: seq<byte>, l: Lump): (r: Outcome<seq<Submodel>>)
    ensures r.Rejected? <==> AsSize(l.filelen) % 64 != 0
    ensures r.Crashed? <==> AsSize(l.filelen) % 64 == 0 && !Readable(file, l)
    ensures r.Done? ==> Readable(file, l) && |r.value| * 64 == l.filelen
    ensures r.Done? ==> forall i :: 0 <= i < |r.value| ==> |r.value[i].headnode| == MAX_MAP_HULLS
    ensures r.Done? ==> forall i :: 0 <= i < |r.value| ==>
      InFile(file, l) && i * 64 + 64 <= l.filelen && r.value[i] == DecodeSubmodel(fo, RecordOf(file, l, 64, i))
  {
    var rs :- LumpRecords(file, l, 64);
    Done(seq(|rs|, i requires 0 <= i < |rs| => DecodeSubmodel(fo, rs[i])))
  }
}
