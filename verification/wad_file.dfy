/**
 * The wrapper around one loaded texture archive (wad/CWadFile.h): the wad's
 * name, kept in a fixed buffer, and ownership of the loaded archive.
 *
 * A lump pointer is modelled by its index in the lump directory, which is how
 * the source's pointer arithmetic locates it; the data pointer a lump leads
 * to is the byte offset into the archive. Using the archive after `Release`
 * dereferences a null pointer, which is `Crashed`.
 */
module WadFiles {
  import opened Wrappers
  import opened CStrings
  import opened WadIO

  /**
   * A `CWadFile`: the name buffer (`MAX_PATH_LENGTH` characters, a build
   * constant that is a parameter here) and the owned archive, if any.
   */
  datatype WadFile = WadFile(filename: string, wad: Option<WadInfo>)

  predicate Valid(f: WadFile)
  {
    |f.filename| >= 1 && (f.wad.Some? ==> ValidWad(f.wad.value))
  }

  /** The constructor: the name copied with `strncpy` into a buffer of `size` characters, always terminated. */
  function NewWadFile(name: string, wad: WadInfo, size: nat): (f: WadFile)
    requires size >= 1 && ValidWad(wad)
    ensures Valid(f) && IsValid(f) && |f.filename| == size && f.wad == Some(wad)
    ensures |CStr(name)| < size ==> CStr(f.filename) == CStr(name)
    ensures |CStr(name)| >= size ==> CStr(f.filename) == CStr(name)[..size - 1]
  {
    WadFile(BoundedCopy(name, size), Some(wad))
  }

  /** `IsValid`: the archive has not been released. */
  predicate IsValid(f: WadFile)
  {
    f.wad.Some?
  }

  /**
   * `Release`: hands the archive to the caller (none once already released),
   * zeroes the name and keeps no archive.
   */
  function Release(f: WadFile): (r: (WadFile, Option<WadInfo>))
    ensures r.1 == f.wad
    ensures !IsValid(r.0) && |r.0.filename| == |f.filename|
    ensures forall i :: 0 <= i < |f.filename| ==> r.0.filename[i] == '\0'
    ensures Valid(f) ==> Valid(r.0)
  {
    (WadFile(seq(|f.filename|, _ => '\0'), None), f.wad)
  }

  /** Releasing twice hands the archive over once; the second call gets nothing and changes nothing. */
  lemma ReleaseTwice(f: WadFile)
    ensures Release(Release(f).0).1.None?
    ensures Release(Release(f).0).0 == Release(f).0
  {
  }

  /** `GetNumLumps`. */
  function NumLumps(f: WadFile): (r: Outcome<int>)
    ensures r.Crashed? <==> !IsValid(f)
    ensures r.Done? ==> r.value == f.wad.value.numlumps
  {
    if f.wad.None? then Crashed else Done(f.wad.value.numlumps as int)
  }

  /** `GetLumpByIndex`: the lump, or null outside `[0, numlumps)`. */
  function GetLumpByIndex(f: WadFile, index: int): (r: Outcome<Option<nat>>)
    requires Valid(f)
    ensures r.Crashed? <==> !IsValid(f)
    ensures r.Done? && r.value.Some? ==> r.value.value == index && index < |f.wad.value.lumps|
    ensures r.Done? ==> (r.value.Some? <==> 0 <= index < f.wad.value.numlumps)
  {
    if f.wad.None? then Crashed
    else if index < 0 || index >= f.wad.value.numlumps as int then Done(None)
    else Done(Some(index))
  }

  /** The lump's type byte compared as a signed C `char`. */
  function TypeCode(l: LumpInfo): (r: int)
    ensures l.ltype < 128 ==> r == l.ltype
    ensures l.ltype >= 128 ==> r < 0
  {
    SignedChar(l.ltype as char)
  }

  /** The lump is accepted for the type asked for: any with `TYP_NONE`, else the same type. */
  predicate TypeAccepted(l: LumpInfo, ltype: int)
  {
    ltype == TYP_NONE || TypeCode(l) == ltype
  }

  /**
   * `GetLumpByName`: the first lump with that name (ignoring case), or null
   * when there is none or when it is not of the type asked for.
   */
  function GetLumpByName(f: WadFile, name: string, ltype: int): (r: Outcome<Option<nat>>)
    requires Valid(f)
    ensures r.Crashed? <==> !IsValid(f)
    ensures r.Done? ==> forall i :: (r.value == Some(i)) <==>
      IsFirstMatch(f.wad.value.lumps, name, i) && TypeAccepted(f.wad.value.lumps[i], ltype)
  {
    if f.wad.None? then Crashed
    else
      var lumps := f.wad.value.lumps;
      match FirstMatch(lumps, name, 0)
      case None => Done(None)
      case Some(i) =>
        FirstMatchUnique(lumps, name, i);
        if !TypeAccepted(lumps[i], ltype) then Done(None) else Done(Some(i))
  }

  /**
   * `GetLumpData`: null for a null lump or one that is not in this archive's
   * directory, else the lump's offset into the archive.
   */
  function GetLumpData(f: WadFile, lump: Option<int>): (r: Outcome<Option<int>>)
    requires Valid(f)
    ensures lump.None? ==> r == Done(None)
    ensures lump.Some? ==> (r.Crashed? <==> !IsValid(f))
    ensures r.Done? && r.value.Some? ==> (lump.Some? && 0 <= lump.value < |f.wad.value.lumps|
      && r.value.value == f.wad.value.lumps[lump.value].filepos)
    ensures r.Done? && lump.Some? && 0 <= lump.value < |f.wad.value.lumps| ==> r.value.Some?
  {
    match lump
    case None => Done(None)
    case Some(i) =>
      if f.wad.None? then Crashed
      else if i < 0 || i >= f.wad.value.numlumps as int then Done(None)
      else Done(Some(f.wad.value.lumps[i].filepos as int))
  }

  /**
   * Looking a texture up through the wrapper (by name with the texture type,
   * then its data) finds what `Wad_FindTexture` finds in the archive.
   */
  lemma FindThroughWrapper(f: WadFile, name: string)
    requires Valid(f) && IsValid(f)
    ensures var lump := GetLumpByName(f, name, MIPTEX_TYPE);
      lump.Done? && GetLumpData(f, lump.value) == Done(Wad_FindTexture(f.wad, Some(name)))
  {
    var lumps := f.wad.value.lumps;
    var lump := GetLumpByName(f, name, MIPTEX_TYPE);
    match FirstMatch(lumps, name, 0)
    case None =>
    case Some(i) =>
      FirstMatchUnique(lumps, name, i);
      assert TypeAccepted(lumps[i], MIPTEX_TYPE) <==> lumps[i].ltype == MIPTEX_TYPE;
  }
}
