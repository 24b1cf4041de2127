/**
 * Texture archives (WAD2/WAD3): the on-disk layout of wad/WadFile.h and
 * wad/WadConstants.h, and the loader and look-up of wad/WadIO.cpp.
 *
 * A wad is the byte sequence of its file. Loading checks the magic, then
 * decodes the lump directory, canonicalising every lump name. The directory is
 * kept decoded next to the file's bytes; a pointer into the file is kept as a
 * byte offset.
 */
module WadIO {
  import opened Bytes
  import opened Wrappers
  import opened CStrings

  /** Size of a lump or texture name buffer, terminator included. */
  const WAD_MAX_LUMP_NAME_SIZE: nat := 16

  const TYP_NONE: int := 0
  const TYP_LUMPY: int := 64
  const TYP_LUMPY_MIPTEX: int := 3

  /** The lump type of a texture. */
  const MIPTEX_TYPE: int := TYP_LUMPY + TYP_LUMPY_MIPTEX

  const MIPLEVELS: nat := 4

  const WAD2_ID: string := "WAD2"
  const WAD3_ID: string := "WAD3"
  const WAD_FILE_EXT: string := ".wad"

  /** `sizeof(wadinfo_t)`: magic, lump count, directory offset. */
  const WADINFO_SIZE: nat := 12

  /** `sizeof(lumpinfo_t)`: three `int`s, type, compression, two pad bytes and the name. */
  const LUMPINFO_SIZE: nat := 12 + 4 + WAD_MAX_LUMP_NAME_SIZE

  /** `sizeof(miptex_t)`: name, width, height and the mip offsets. */
  const MIPTEX_SIZE: nat := WAD_MAX_LUMP_NAME_SIZE + 8 + 4 * MIPLEVELS

  /** A directory entry (`lumpinfo_t`); `name` is its 16-character buffer. */
  datatype LumpInfo = LumpInfo(
    filepos: int32, disksize: int32, size: int32, ltype: byte, compression: byte, name: string)

  /**
   * A loaded wad: its magic, lump count and directory offset, the decoded
   * directory (one entry per lump when the count is positive) and the file.
   */
  datatype WadInfo = WadInfo(
    identification: seq<byte>, numlumps: int32, infotableofs: int32, lumps: seq<LumpInfo>, file: seq<byte>)

  /** The directory holds one entry per lump. */
  predicate ValidWad(w: WadInfo)
  {
    |w.lumps| == (if w.numlumps > 0 then w.numlumps as int else 0)
    && forall i :: 0 <= i < |w.lumps| ==> |w.lumps[i].name| == WAD_MAX_LUMP_NAME_SIZE
  }

  /** A texture header (`miptex_t`). */
  datatype Miptex = Miptex(name: string, width: nat, height: nat, offsets: seq<nat>)

  /** The unsigned 32-bit value at byte offset `o`. */
  function U32At(bs: seq<byte>, o: nat): (r: nat)
    requires o + 4 <= |bs|
    ensures r < U32
  {
    LeValue(bs[o..o + 4])
  }

  /** The characters of a byte buffer. */
  function Chars(bs: seq<byte>): (s: string)
    ensures |s| == |bs| && forall i :: 0 <= i < |bs| ==> s[i] as int == bs[i]
  {
    seq(|bs|, i requires 0 <= i < |bs| => bs[i] as char)
  }

  function DecodeMiptex(rec: seq<byte>): (m: Miptex)
    requires |rec| == MIPTEX_SIZE
    ensures |m.name| == WAD_MAX_LUMP_NAME_SIZE && |m.offsets| == MIPLEVELS
  {
    Miptex(Chars(rec[..16]), U32At(rec, 16), U32At(rec, 20),
           seq(MIPLEVELS, i requires 0 <= i < MIPLEVELS => U32At(rec, 24 + 4 * i)))
  }

  /** All mip offsets zero: the pixels are not in this file. */
  predicate PixelsElsewhere(m: Miptex)
    requires |m.offsets| == MIPLEVELS
  {
    forall i :: 0 <= i < MIPLEVELS ==> m.offsets[i] == 0
  }

  /**
   * `GetMiptexPixelSize`: the bytes of all four mip levels, `width * height *
   * 85 / 64`, computed in 32-bit unsigned arithmetic (the product wraps).
   */
  function MiptexPixelSize(width: nat, height: nat): (r: nat)
    requires width < U32 && height < U32
    ensures r < U32 / 64
    ensures width * height * 85 < U32 ==> r == width * height * 85 / 64
  {
    var product := (((width * height) % U32) * 85) % U32;
    WrappedProduct(width, height);
    product / 64
  }

  /** The wrapped product equals the true one when that fits. */
  lemma WrappedProduct(width: nat, height: nat)
    ensures width * height * 85 < U32 ==> (((width * height) % U32) * 85) % U32 == width * height * 85
  {
    if width * height * 85 < U32 {
      assert width * height <= width * height * 85;
    }
  }

  /**
   * When `width * height` is a multiple of 64 and the product fits, the pixel
   * size is the sum of the four mip levels, each a quarter of the one before.
   */
  lemma MipLevelsSum(width: nat, height: nat)
    requires width < U32 && height < U32
    requires (width * height) % 64 == 0 && width * height * 85 < U32
    ensures var n := width * height;
      MiptexPixelSize(width, height) == n + n / 4 + n / 16 + n / 64
  {
    var n := width * height;
    var k := n / 64;
    assert n == 64 * k;
    assert n * 85 == 64 * (85 * k);
    assert n / 4 == 16 * k && n / 16 == 4 * k;
  }

  // ------------------------------------------------------------- lump names

  /** The number of characters `CleanupWadLumpName` copies: up to the first NUL, at most 16. */
  function NameLength(name: string): (n: nat)
    ensures n <= WAD_MAX_LUMP_NAME_SIZE && n <= |CStr(name)|
    ensures n == |CStr(name)| || n == WAD_MAX_LUMP_NAME_SIZE
  {
    if |CStr(name)| < WAD_MAX_LUMP_NAME_SIZE then |CStr(name)| else WAD_MAX_LUMP_NAME_SIZE
  }

  /**
   * `CleanupWadLumpName` into a buffer of `size` characters: the name
   * upper-cased up to its first NUL or 16 characters, the rest zero.
   */
  function CleanupWadLumpName(name: string, size: nat): (out: string)
    requires size >= WAD_MAX_LUMP_NAME_SIZE
    ensures |out| == size
    ensures CStr(out) == Upper(CStr(name)[..NameLength(name)])
    ensures forall i :: NameLength(name) <= i < size ==> out[i] == '\0'
  {
    var n := NameLength(name);
    var out := seq(size, i requires 0 <= i < size => if i < n then ToUpper(CStr(name)[i]) else '\0');
    CleanedCStr(CStr(name), n, size, out);
    out
  }

  /** The C string of an upper-cased prefix padded with NULs is that prefix. */
  lemma CleanedCStr(s: string, n: nat, size: nat, out: string)
    requires '\0' !in s && n <= |s| && n <= size
    requires |out| == size && forall i :: 0 <= i < size ==> out[i] == if i < n then ToUpper(s[i]) else '\0'
    ensures CStr(out) == Upper(s[..n])
  {
    var u := Upper(s[..n]);
    assert '\0' !in u by {
      forall i | 0 <= i < n ensures u[i] != '\0' {
        assert s[i] != '\0';
      }
    }
    if n < size {
      CStrOfPrefixBuffer(out, u, n);
      assert u[..n] == u;
    } else {
      assert out == u;
      CStrOfNulFree(u);
    }
  }

  lemma ToUpperIdempotent(c: char)
    ensures ToUpper(ToUpper(c)) == ToUpper(c)
  {
  }

  /** Cleaning a cleaned name changes nothing. */
  lemma CleanupIdempotent(name: string, size: nat)
    requires size >= WAD_MAX_LUMP_NAME_SIZE
    ensures CleanupWadLumpName(CleanupWadLumpName(name, size), size) == CleanupWadLumpName(name, size)
  {
    var once := CleanupWadLumpName(name, size);
    var twice := CleanupWadLumpName(once, size);
    var n := NameLength(name);
    assert CStr(once) == Upper(CStr(name)[..n]);
    assert NameLength(once) == n;
    forall i | 0 <= i < size ensures twice[i] == once[i] {
      if i < n {
        assert once[i] == CStr(once)[i] == ToUpper(CStr(name)[i]);
        assert twice[i] == ToUpper(CStr(once)[i]);
        ToUpperIdempotent(CStr(name)[i]);
      }
    }
  }

  // ---------------------------------------------------------------- loading

  /** The file starts with the four characters of `magic`. */
  predicate HasMagic(file: seq<byte>, magic: string)
    requires |magic| == 4
  {
    |file| >= 4 && forall i :: 0 <= i < 4 ==> file[i] == magic[i] as int
  }

  /**
   * `strncmp(magic, identification, 4) == 0` from byte `k` on: the comparison
   * reads bytes while they match, so a file shorter than the part that matches
   * is read out of bounds.
   */
  function MagicMatches(file: seq<byte>, magic: string, k: nat): (r: Outcome<bool>)
    requires |magic| == 4 && k <= 4 && k <= |file|
    requires forall i :: 0 <= i < k ==> file[i] == magic[i] as int
    ensures !r.Rejected?
    ensures r.Crashed? ==> |file| < 4
    ensures |file| >= 4 ==> r == Done(HasMagic(file, magic))
    ensures r == Done(true) ==> HasMagic(file, magic)
    decreases 4 - k
  {
    if k == 4 then Done(true)
    else if k == |file| then Crashed
    else if file[k] != magic[k] as int then Done(false)
    else MagicMatches(file, magic, k + 1)
  }

  /** The magic test of `LoadWadFile`: "WAD2", else "WAD3". */
  function WadMagic(file: seq<byte>): (r: Outcome<bool>)
    ensures !r.Rejected?
    ensures r.Crashed? ==> |file| < 4
    ensures |file| >= 4 ==> r == Done(HasMagic(file, WAD2_ID) || HasMagic(file, WAD3_ID))
    ensures r == Done(true) ==> HasMagic(file, WAD2_ID) || HasMagic(file, WAD3_ID)
  {
    match MagicMatches(file, WAD2_ID, 0)
    case Done(true) => Done(true)
    case Done(false) => MagicMatches(file, WAD3_ID, 0)
    case _ => Crashed
  }

  /** A directory entry with its name canonicalised. */
  function DecodeLumpInfo(rec: seq<byte>): (l: LumpInfo)
    requires |rec| == LUMPINFO_SIZE
    ensures |l.name| == WAD_MAX_LUMP_NAME_SIZE
    ensures l.name == CleanupWadLumpName(Chars(rec[16..]), WAD_MAX_LUMP_NAME_SIZE)
  {
    LumpInfo(Int32(rec[0..4]), Int32(rec[4..8]), Int32(rec[8..12]), rec[12], rec[13],
             CleanupWadLumpName(Chars(rec[16..]), WAD_MAX_LUMP_NAME_SIZE))
  }

  /** The directory lies inside the file (it is only read when the count is positive). */
  predicate DirectoryInFile(file: seq<byte>, numlumps: int, infotableofs: int)
  {
    numlumps <= 0 || (0 <= infotableofs && infotableofs + numlumps * LUMPINFO_SIZE <= |file|)
  }

  /** The record of directory entry `i`. */
  function EntryBytes(file: seq<byte>, infotableofs: int, i: nat): (rec: seq<byte>)
    requires 0 <= infotableofs && infotableofs + (i + 1) * LUMPINFO_SIZE <= |file|
    ensures |rec| == LUMPINFO_SIZE
  {
    file[infotableofs + i * LUMPINFO_SIZE..infotableofs + (i + 1) * LUMPINFO_SIZE]
  }

  /** The lump directory, one decoded entry per lump. */
  function DecodeDirectory(file: seq<byte>, numlumps: int32, infotableofs: int32): (lumps: seq<LumpInfo>)
    requires DirectoryInFile(file, numlumps, infotableofs)
    ensures |lumps| == if numlumps > 0 then numlumps as int else 0
    ensures forall i :: 0 <= i < |lumps| ==> lumps[i] == DecodeLumpInfo(EntryBytes(file, infotableofs, i))
  {
    var count := if numlumps > 0 then numlumps as int else 0;
    seq(count, i requires 0 <= i < count => DecodeLumpInfo(EntryBytes(file, infotableofs, i)))
  }

  /**
   * `LoadWadFile` on the file's contents (`None` when it cannot be opened or
   * read in full): rejected unless the magic is "WAD2" or "WAD3"; otherwise the
   * directory, decoded.
   */
  function LoadWadFile(contents: Option<seq<byte>>): (r: Outcome<WadInfo>)
    ensures contents.None? ==> r.Rejected?
    ensures contents.Some? && |contents.value| >= 4 ==>
      (r.Rejected? <==> !HasMagic(contents.value, WAD2_ID) && !HasMagic(contents.value, WAD3_ID))
    ensures contents.Some? && |contents.value| >= WADINFO_SIZE && r.Crashed? ==>
      !DirectoryInFile(contents.value, Int32(contents.value[4..8]), Int32(contents.value[8..12]))
    ensures r.Done? ==> contents.Some? && |contents.value| >= WADINFO_SIZE
    ensures r.Done? ==> HasMagic(contents.value, WAD2_ID) || HasMagic(contents.value, WAD3_ID)
    ensures r.Done? ==> ValidWad(r.value) && r.value.file == contents.value
    ensures r.Done? ==> (r.value.numlumps == Int32(contents.value[4..8])
      && r.value.infotableofs == Int32(contents.value[8..12]))
    ensures r.Done? ==> DirectoryInFile(contents.value, r.value.numlumps, r.value.infotableofs)
    ensures r.Done? ==> forall i :: 0 <= i < |r.value.lumps| ==>
      r.value.lumps[i] == DecodeLumpInfo(EntryBytes(contents.value, r.value.infotableofs, i))
  {
    match contents
    case None => Rejected
    case Some(file) =>
      var ok :- WadMagic(file);
      if !ok then Rejected
      else if |file| < WADINFO_SIZE then Crashed
      else
        var numlumps := Int32(file[4..8]);
        var infotableofs := Int32(file[8..12]);
        if !DirectoryInFile(file, numlumps, infotableofs) then Crashed
        else Done(WadInfo(file[..4], numlumps, infotableofs, DecodeDirectory(file, numlumps, infotableofs), file))
  }

  /** Every loaded lump name is already clean: cleaning it again changes nothing. */
  lemma LoadedNamesAreClean(contents: Option<seq<byte>>, i: nat)
    requires LoadWadFile(contents).Done? && i < |LoadWadFile(contents).value.lumps|
    ensures var name := LoadWadFile(contents).value.lumps[i].name;
      CleanupWadLumpName(name, WAD_MAX_LUMP_NAME_SIZE) == name
  {
    var w := LoadWadFile(contents).value;
    var rec := EntryBytes(contents.value, w.infotableofs, i);
    CleanupIdempotent(Chars(rec[16..]), WAD_MAX_LUMP_NAME_SIZE);
  }

  /** The twelve-byte header of an empty WAD3 archive. */
  const EmptyWad3: seq<byte> := [0x57, 0x41, 0x44, 0x33, 0, 0, 0, 0, 12, 0, 0, 0]

  /**
   * An empty WAD3 archive loads with no lumps; the same header saying "WAD4"
   * is rejected; the first three bytes alone match "WAD" and are read past.
   */
  lemma HeaderExamples()
    ensures LoadWadFile(Some(EmptyWad3)).Done? && LoadWadFile(Some(EmptyWad3)).value.lumps == []
    ensures LoadWadFile(Some(EmptyWad3[3 := 0x34])).Rejected?
    ensures LoadWadFile(Some(EmptyWad3[..3])).Crashed?
  {
    assert EmptyWad3[3] != WAD2_ID[3] as int;
    assert forall i :: 0 <= i < 4 ==> EmptyWad3[i] == WAD3_ID[i] as int;
    assert LeValue(EmptyWad3[4..8]) == 0 by {
      var z := EmptyWad3[4..8];
      assert z == [0, 0, 0, 0];
      assert LeValue(z[3..]) == 0 by { assert z[3..][1..] == []; }
      assert LeValue(z[2..]) == 0 by { assert z[2..][1..] == z[3..]; }
      assert LeValue(z[1..]) == 0 by { assert z[1..][1..] == z[2..]; }
    }
    var bad := EmptyWad3[3 := 0x34];
    assert !HasMagic(bad, WAD2_ID) && !HasMagic(bad, WAD3_ID) by {
      assert bad[3] != WAD2_ID[3] as int && bad[3] != WAD3_ID[3] as int;
    }
    var short := EmptyWad3[..3];
    assert MagicMatches(short, WAD2_ID, 3) == Crashed;
    assert MagicMatches(short, WAD2_ID, 0) == Crashed;
  }

  // ---------------------------------------------------------------- look-up

  /** `_stricmp(name, lump.name) == 0`. */
  predicate NameMatches(l: LumpInfo, name: string)
  {
    EqualIgnoreCase(CStr(name), CStr(l.name))
  }

  /** Entry `i` is the first whose name matches. */
  predicate IsFirstMatch(lumps: seq<LumpInfo>, name: string, i: int)
  {
    0 <= i < |lumps| && NameMatches(lumps[i], name)
    && forall k :: 0 <= k < i ==> !NameMatches(lumps[k], name)
  }

  /** The first entry from `i` on whose name matches. */
  function FirstMatch(lumps: seq<LumpInfo>, name: string, i: nat): (r: Option<nat>)
    requires i <= |lumps|
    ensures r.Some? ==> (i <= r.value < |lumps| && NameMatches(lumps[r.value], name)
      && forall k :: i <= k < r.value ==> !NameMatches(lumps[k], name))
    ensures r.None? ==> forall k :: i <= k < |lumps| ==> !NameMatches(lumps[k], name)
    decreases |lumps| - i
  {
    if i == |lumps| then None
    else if NameMatches(lumps[i], name) then Some(i)
    else FirstMatch(lumps, name, i + 1)
  }

  /**
   * `Wad_FindTexture`: the offset of the texture whose lump is the first with
   * that name; null for a null argument, no match, or a first match that is
   * not a texture (the search does not go on).
   */
  function Wad_FindTexture(wad: Option<WadInfo>, name: Option<string>): (r: Option<int>)
    ensures r.Some? <==> (wad.Some? && name.Some?
      && exists i :: IsFirstMatch(wad.value.lumps, name.value, i) && wad.value.lumps[i].ltype == MIPTEX_TYPE)
    ensures r.Some? ==> forall i :: IsFirstMatch(wad.value.lumps, name.value, i) ==>
      r.value == wad.value.lumps[i].filepos
  {
    if wad.None? || name.None? then None
    else match FirstMatch(wad.value.lumps, name.value, 0)
      case None => None
      case Some(i) =>
        FirstMatchUnique(wad.value.lumps, name.value, i);
        if wad.value.lumps[i].ltype != MIPTEX_TYPE then None else Some(wad.value.lumps[i].filepos)
  }

  /** At most one entry is the first match. */
  lemma FirstMatchUnique(lumps: seq<LumpInfo>, name: string, i: int)
    requires IsFirstMatch(lumps, name, i)
    ensures forall j :: IsFirstMatch(lumps, name, j) ==> j == i
  {
  }
}
