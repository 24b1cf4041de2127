/**
 * The on-disk layout of a Half-Life (version 30) BSP file: the design bounds,
 * the lump directory, the record layouts of every lump and the encodings a
 * few fields use (node children, clip-node children, leaf visibility offsets).
 *
 * A record is modelled as its bytes; a record layout is the list of the widths
 * of its scalar fields, in declaration order. Every multi-byte field is stored
 * least significant byte first.
 */
module BSPFile {
  import opened Bytes
  import opened Wrappers

  // Upper design bounds.
  const MAX_MAP_HULLS: nat := 4
  const MAX_MAP_MODELS: nat := 400
  const MAX_MAP_ENTSTRING: nat := 128 * 1024
  const MAX_MAP_PLANES: nat := 32767
  const MAX_MAP_NODES: nat := 32767
  const MAX_MAP_CLIPNODES: nat := 32767
  const MAX_MAP_LEAFS: nat := 8192
  const MAX_MAP_VERTS: nat := 65535
  const MAX_MAP_FACES: nat := 65535
  const MAX_MAP_MARKSURFACES: nat := 65535
  const MAX_MAP_TEXINFO: nat := 8192
  const MAX_MAP_EDGES: nat := 256000
  const MAX_MAP_SURFEDGES: nat := 512000
  const MAX_MAP_MIPTEX: nat := 0x200000
  const MAX_MAP_LIGHTING: nat := 0x200000
  const MAX_MAP_VISIBILITY: nat := 0x200000

  const BSPVERSION: int := 30
  const MAXLIGHTMAPS: nat := 4
  const NUM_AMBIENTS: nat := 4
  const HEADER_LUMPS: nat := 15

  const CONTENTS_EMPTY: int := -1
  const CONTENTS_SOLID: int := -2

  /** The bytes of the header: the version and fifteen (offset, length) pairs. */
  const HEADER_SIZE: nat := 4 + 8 * HEADER_LUMPS

  /** The lumps of a BSP file. */
  datatype LumpKind =
    | Entities | Planes | Textures | Vertexes | Visibility | Nodes | Texinfo | Faces
    | Lighting | Clipnodes | Leafs | Marksurfaces | Edges | Surfedges | Models

  /** The lump's slot in the header's directory. */
  function LumpIndex(k: LumpKind): (r: nat)
    ensures r < HEADER_LUMPS
  {
    match k
    case Entities => 0
    case Planes => 1
    case Textures => 2
    case Vertexes => 3
    case Visibility => 4
    case Nodes => 5
    case Texinfo => 6
    case Faces => 7
    case Lighting => 8
    case Clipnodes => 9
    case Leafs => 10
    case Marksurfaces => 11
    case Edges => 12
    case Surfedges => 13
    case Models => 14
  }

  /** The lump stored in a directory slot. */
  function LumpAt(i: nat): (k: LumpKind)
    requires i < HEADER_LUMPS
  {
    [Entities, Planes, Textures, Vertexes, Visibility, Nodes, Texinfo, Faces,
     Lighting, Clipnodes, Leafs, Marksurfaces, Edges, Surfedges, Models][i]
  }

  /** The directory slots and the lumps correspond one to one. */
  lemma LumpIndexBijective(k: LumpKind, i: nat)
    requires i < HEADER_LUMPS
    ensures LumpAt(LumpIndex(k)) == k
    ensures LumpIndex(LumpAt(i)) == i
  {
  }

  /** `n` fields of `width` bytes each: one array member of a record. */
  function Repeat(width: nat, n: nat): (l: seq<nat>)
    ensures |l| == n
    ensures forall i :: 0 <= i < n ==> l[i] == width
  {
    seq(n, _ => width)
  }

  /** The widths of a record's scalar fields, in declaration order. */
  function Layout(k: LumpKind): (l: seq<nat>)
  {
    match k
    // mins[3], maxs[3], origin[3], headnode[MAX_MAP_HULLS], visleafs, firstface, numfaces
    case Models => Repeat(4, 3) + Repeat(4, 3) + Repeat(4, 3) + Repeat(4, MAX_MAP_HULLS) + Repeat(4, 3)
    // point[3]
    case Vertexes => Repeat(4, 3)
    // normal[3], dist, type
    case Planes => Repeat(4, 3) + Repeat(4, 1) + Repeat(4, 1)
    // vecs[2][4], miptex, flags
    case Texinfo => Repeat(4, 8) + Repeat(4, 1) + Repeat(4, 1)
    // planenum, side, firstedge, numedges, texinfo, styles[MAXLIGHTMAPS], lightofs
    case Faces =>
      Repeat(2, 1) + Repeat(2, 1) + Repeat(4, 1) + Repeat(2, 1) + Repeat(2, 1) + Repeat(1, MAXLIGHTMAPS) + Repeat(4, 1)
    // planenum, children[2], mins[3], maxs[3], firstface, numfaces
    case Nodes => Repeat(4, 1) + Repeat(2, 2) + Repeat(2, 3) + Repeat(2, 3) + Repeat(2, 1) + Repeat(2, 1)
    // contents, visofs, mins[3], maxs[3], firstmarksurface, nummarksurfaces, ambient_level[NUM_AMBIENTS]
    case Leafs =>
      Repeat(4, 1) + Repeat(4, 1) + Repeat(2, 3) + Repeat(2, 3) + Repeat(2, 1) + Repeat(2, 1) + Repeat(1, NUM_AMBIENTS)
    // planenum, children[2]
    case Clipnodes => Repeat(4, 1) + Repeat(2, 2)
    // v[2]
    case Edges => Repeat(2, 2)
    case Marksurfaces => Repeat(2, 1)
    case Surfedges => Repeat(4, 1)
    // bytes (the texture lump has a structure of its own, see BSPIO.SwapMiptex)
    case Textures => Repeat(1, 1)
    case Visibility => Repeat(1, 1)
    case Lighting => Repeat(1, 1)
    case Entities => Repeat(1, 1)
  }

  function Sum(l: seq<nat>): nat
  {
    if |l| == 0 then 0 else l[0] + Sum(l[1..])
  }

  lemma {:induction false} SumAppend(a: seq<nat>, b: seq<nat>)
    ensures Sum(a + b) == Sum(a) + Sum(b)
  {
    if |a| > 0 {
      SumAppend(a[1..], b);
      assert (a + b)[0] == a[0];
      assert (a + b)[1..] == a[1..] + b;
    } else {
      assert a + b == b;
    }
  }

  lemma {:induction false} SumRepeat(width: nat, n: nat)
    ensures Sum(Repeat(width, n)) == width * n
  {
    if n > 0 {
      SumRepeat(width, n - 1);
      assert Repeat(width, n)[1..] == Repeat(width, n - 1);
    }
  }

  /** `sizeof` of one record of the lump. */
  function RecordSize(k: LumpKind): (r: nat)
  {
    match k
    case Models => 64
    case Vertexes => 12
    case Planes => 20
    case Texinfo => 40
    case Faces => 20
    case Nodes => 24
    case Leafs => 28
    case Clipnodes => 8
    case Edges => 4
    case Marksurfaces => 2
    case Surfedges => 4
    case Textures => 1
    case Visibility => 1
    case Lighting => 1
    case Entities => 1
  }

  /** The field layouts add up to the record sizes. */
  lemma LayoutAddsUpToRecordSize(k: LumpKind)
    ensures Sum(Layout(k)) == RecordSize(k)
    ensures RecordSize(k) >= 1
  {
    forall a: seq<nat>, b: seq<nat> ensures Sum(a + b) == Sum(a) + Sum(b) {
      SumAppend(a, b);
    }
    forall w: nat, n: nat ensures Sum(Repeat(w, n)) == w * n {
      SumRepeat(w, n);
    }
  }

  /** The number of records of the lump a `CBSPFile` has room for. */
  function MaxRecords(k: LumpKind): (r: nat)
  {
    match k
    case Models => MAX_MAP_MODELS
    case Vertexes => MAX_MAP_VERTS
    case Planes => MAX_MAP_PLANES
    case Texinfo => MAX_MAP_TEXINFO
    case Faces => MAX_MAP_FACES
    case Nodes => MAX_MAP_NODES
    case Leafs => MAX_MAP_LEAFS
    case Clipnodes => MAX_MAP_CLIPNODES
    case Edges => MAX_MAP_EDGES
    case Marksurfaces => MAX_MAP_MARKSURFACES
    case Surfedges => MAX_MAP_SURFEDGES
    case Textures => MAX_MAP_MIPTEX
    case Visibility => MAX_MAP_VISIBILITY
    case Lighting => MAX_MAP_LIGHTING
    case Entities => MAX_MAP_ENTSTRING
  }

  /** One directory entry: where the lump starts and how many bytes it has. */
  datatype Lump = Lump(fileofs: int32, filelen: int32)

  datatype Header = Header(version: int, lumps: seq<Lump>)

  /** The C `int` stored at byte offset `o`. */
  function IntAt(bs: seq<byte>, o: nat): (r: int32)
    requires o + 4 <= |bs|
  {
    Int32(bs[o..o + 4])
  }

  /**
   * The value the host reads from an `int` field after `LittleValue` has been
   * applied to it in memory.
   */
  function HostInt(host: Endian, bs: seq<byte>): int
    requires |bs| == 4
  {
    Signed32(HostValue(host, LittleValue(host, bs)))
  }

  /** Swapping a field and reading it on the host gives its little-endian value on any host. */
  lemma HostIntIsLittleEndian(host: Endian, bs: seq<byte>)
    requires |bs| == 4
    ensures HostInt(host, bs) == Int32(bs)
  {
    LittleValueReadsLittleEndian(host, bs);
  }

  /**
   * The header at the start of the file, as both loaders read it after swapping
   * its `sizeof(dheader_t) / 4` ints (see HostIntIsLittleEndian): the version,
   * then slot `i` of the directory at bytes `4 + 8i` (offset) and `8 + 8i` (length).
   */
  function ReadHeader(file: seq<byte>): (h: Header)
    requires |file| >= HEADER_SIZE
    ensures |h.lumps| == HEADER_LUMPS
    ensures h.version == IntAt(file, 0)
    ensures forall i :: 0 <= i < HEADER_LUMPS ==>
      h.lumps[i] == Lump(IntAt(file, 4 + 8 * i), IntAt(file, 8 + 8 * i))
  {
    Header(IntAt(file, 0), seq(HEADER_LUMPS, i requires 0 <= i < HEADER_LUMPS =>
      Lump(IntAt(file, 4 + 8 * i), IntAt(file, 8 + 8 * i))))
  }

  /** The lump's directory entry. */
  function LumpOf(h: Header, k: LumpKind): Lump
    requires |h.lumps| == HEADER_LUMPS
  {
    h.lumps[LumpIndex(k)]
  }

  /** The lump lies inside the file. */
  predicate InFile(file: seq<byte>, l: Lump)
  {
    0 <= l.fileofs && 0 <= l.filelen && l.fileofs + l.filelen <= |file|
  }

  /** The lump's bytes. */
  function LumpBytes(file: seq<byte>, l: Lump): (r: seq<byte>)
    requires InFile(file, l)
    ensures |r| == l.filelen
    ensures forall i :: 0 <= i < |r| ==> r[i] == file[l.fileofs + i]
  {
    file[l.fileofs..l.fileofs + l.filelen]
  }

  /** Splits bytes into whole records of `size` bytes; a trailing partial record is dropped. */
  function Records(data: seq<byte>, size: nat): (r: seq<seq<byte>>)
    requires size >= 1
    ensures |r| * size <= |data| < |r| * size + size
    ensures forall i :: 0 <= i < |r| ==> |r[i]| == size
    decreases |data|
  {
    if |data| < size then [] else [data[..size]] + Records(data[size..], size)
  }

  /** Record `i` of a lump of `size`-byte records lies inside the file, whether or not the rest of the lump does. */
  predicate RecordInFile(file: seq<byte>, l: Lump, size: nat, i: nat)
  {
    0 <= l.fileofs && l.fileofs + i * size + size <= |file|
  }

  /** Record `i` of a lump of `size`-byte records, read straight from the file. */
  function RecordOf(file: seq<byte>, l: Lump, size: nat, i: nat): (r: seq<byte>)
    requires RecordInFile(file, l, size, i)
    ensures |r| == size
  {
    file[l.fileofs + i * size..l.fileofs + i * size + size]
  }

  /** Record `i` of the split is bytes `i * size ..` of the data. */
  lemma {:induction false} RecordsAt(data: seq<byte>, size: nat, i: nat)
    requires size >= 1 && i < |Records(data, size)|
    ensures i * size + size <= |data|
    ensures Records(data, size)[i] == data[i * size..i * size + size]
    decreases i
  {
    if i > 0 {
      RecordsAt(data[size..], size, i - 1);
      assert (i - 1) * size + size == i * size;
    }
  }

  function Concat(rs: seq<seq<byte>>): seq<byte>
  {
    if |rs| == 0 then [] else rs[0] + Concat(rs[1..])
  }

  /** Concatenating the records gives back the data when no partial record is left over. */
  lemma {:induction false} ConcatRecords(data: seq<byte>, size: nat)
    requires size >= 1 && |Records(data, size)| * size == |data|
    ensures Concat(Records(data, size)) == data
    decreases |data|
  {
    if |data| >= size {
      var rest := data[size..];
      var n := |Records(data, size)|;
      assert |Records(rest, size)| == n - 1;
      assert (n - 1) * size == n * size - size;
      ConcatRecords(rest, size);
      assert Records(data, size)[1..] == Records(rest, size);
      assert data == data[..size] + rest;
    }
  }

  /** A node child: a node index, or leaf `l` stored as `-(l + 1)`. */
  datatype Child = NodeChild(node: nat) | LeafChild(leaf: nat)

  function DecodeChild(p: int): (c: Child)
  {
    if p >= 0 then NodeChild(p) else LeafChild(-1 - p)
  }

  function EncodeChild(c: Child): (p: int)
  {
    match c
    case NodeChild(n) => n
    case LeafChild(l) => -1 - l
  }

  /** The child encoding is a bijection between the integers and the children. */
  lemma ChildCodingRoundTrips(c: Child, p: int)
    ensures DecodeChild(EncodeChild(c)) == c
    ensures EncodeChild(DecodeChild(p)) == p
    ensures DecodeChild(p).NodeChild? <==> p >= 0
  {
  }

  /** A leaf's visibility offset; -1 means the leaf has no visibility information. */
  function VisOffset(visofs: int): (r: Option<int>)
    ensures r == None <==> visofs == -1
    ensures r.Some? ==> r.value == visofs
  {
    if visofs == -1 then None else Some(visofs)
  }
}
