/**
 * The list of loaded texture archives (wad/CWadManager.cpp): a base path, the
 * archives in the order they were added, look-up by archive name and by
 * texture name, and adding an archive from disk.
 *
 * The file system is a parameter: it maps a path to the file's contents, or
 * to nothing when the file cannot be opened or read.
 */
module WadManager {
  import opened Bytes
  import opened Wrappers
  import opened CStrings
  import opened WadIO
  import opened WadFiles

  /** `CWadManager::AddResult`. */
  datatype AddResult = Success | AlreadyAdded | FileNotFound | InvalidName

  /**
   * A `CWadManager`: the size of its path buffers (`MAX_PATH_LENGTH`), the
   * base path buffer and the archives.
   */
  datatype Manager = Manager(pathSize: nat, basePath: string, wads: seq<WadFile>)

  /** Every archive the manager holds is loaded and owns its name buffer. */
  predicate Valid(m: Manager)
  {
    m.pathSize >= 1 && |m.basePath| == m.pathSize
    && forall i :: 0 <= i < |m.wads| ==> WadFiles.Valid(m.wads[i]) && IsValid(m.wads[i])
  }

  /** A new manager: empty base path, no archives. */
  function NewManager(pathSize: nat): (m: Manager)
    requires pathSize >= 1
    ensures Valid(m) && m.wads == [] && CStr(m.basePath) == ""
  {
    Manager(pathSize, seq(pathSize, _ => '\0'), [])
  }

  /** `SetBasePath`: a null path changes nothing; otherwise the path, cut to fit the buffer. */
  function SetBasePath(m: Manager, path: Option<string>): (r: Manager)
    requires Valid(m)
    ensures Valid(r) && r.wads == m.wads && r.pathSize == m.pathSize
    ensures path.None? ==> r == m
    ensures path.Some? && |CStr(path.value)| < m.pathSize ==> CStr(r.basePath) == CStr(path.value)
    ensures path.Some? && |CStr(path.value)| >= m.pathSize ==>
      CStr(r.basePath) == CStr(path.value)[..m.pathSize - 1]
  {
    match path
    case None => m
    case Some(p) => m.(basePath := BoundedCopy(p, m.pathSize))
  }

  /** `strcasecmp(name, wad->GetFilename()) == 0`. */
  predicate NamedAs(f: WadFile, name: string)
  {
    EqualIgnoreCase(CStr(name), CStr(f.filename))
  }

  /** The first archive from `i` on with that name. */
  function FirstNamed(wads: seq<WadFile>, name: string, i: nat): (r: Option<nat>)
    requires i <= |wads|
    ensures r.Some? ==> (i <= r.value < |wads| && NamedAs(wads[r.value], name)
      && forall k :: i <= k < r.value ==> !NamedAs(wads[k], name))
    ensures r.None? ==> forall k :: i <= k < |wads| ==> !NamedAs(wads[k], name)
    decreases |wads| - i
  {
    if i == |wads| then None
    else if NamedAs(wads[i], name) then Some(i)
    else FirstNamed(wads, name, i + 1)
  }

  /** `FindWadByName`: the first archive whose name equals `name` ignoring case; null for a null name. */
  function FindWadByName(m: Manager, name: Option<string>): (r: Option<nat>)
    ensures name.None? ==> r.None?
    ensures r.Some? ==> (name.Some? && r.value < |m.wads| && NamedAs(m.wads[r.value], name.value)
      && forall k :: 0 <= k < r.value ==> !NamedAs(m.wads[k], name.value))
    ensures name.Some? && r.None? ==> forall k :: 0 <= k < |m.wads| ==> !NamedAs(m.wads[k], name.value)
  {
    match name
    case None => None
    case Some(n) => FirstNamed(m.wads, n, 0)
  }

  /** Archive `f` offers `name` as a texture: its first lump of that name is a texture. */
  function TextureIn(f: WadFile, name: string): (r: Option<int>)
    requires WadFiles.Valid(f) && IsValid(f)
    ensures r == Wad_FindTexture(f.wad, Some(name))
  {
    FindThroughWrapper(f, name);
    var lump := GetLumpByName(f, name, MIPTEX_TYPE);
    GetLumpData(f, lump.value).value
  }

  /** The first archive from `i` on that offers `name` as a texture, with the texture's offset. */
  function FirstOffering(wads: seq<WadFile>, name: string, i: nat): (r: Option<(nat, int)>)
    requires i <= |wads|
    requires forall k :: 0 <= k < |wads| ==> WadFiles.Valid(wads[k]) && IsValid(wads[k])
    ensures r.Some? ==> (i <= r.value.0 < |wads| && TextureIn(wads[r.value.0], name) == Some(r.value.1)
      && forall k :: i <= k < r.value.0 ==> TextureIn(wads[k], name).None?)
    ensures r.None? ==> forall k :: i <= k < |wads| ==> TextureIn(wads[k], name).None?
    decreases |wads| - i
  {
    if i == |wads| then None
    else match TextureIn(wads[i], name)
      case Some(offset) => Some((i, offset))
      case None => FirstOffering(wads, name, i + 1)
  }

  /**
   * `FindTextureByName`: the texture from the first archive, in the order
   * they were added, whose first lump of that name is a texture; an archive
   * whose lump of that name is something else is passed over.
   */
  function FindTextureByName(m: Manager, name: Option<string>): (r: Option<(nat, int)>)
    requires Valid(m)
    ensures name.None? ==> r.None?
    ensures r.Some? ==> (name.Some? && r.value.0 < |m.wads|
      && Wad_FindTexture(m.wads[r.value.0].wad, name) == Some(r.value.1)
      && forall k :: 0 <= k < r.value.0 ==> Wad_FindTexture(m.wads[k].wad, name).None?)
    ensures name.Some? && r.None? ==> forall k :: 0 <= k < |m.wads| ==> Wad_FindTexture(m.wads[k].wad, name).None?
  {
    match name
    case None => None
    case Some(n) => FirstOffering(m.wads, n, 0)
  }

  /** The path `AddWad` formats: `<base path>/<name>.wad`. */
  function WadPath(m: Manager, name: string): (path: string)
    ensures |path| == |CStr(m.basePath)| + 1 + |CStr(name)| + |WAD_FILE_EXT|
  {
    CStr(m.basePath) + "/" + CStr(name) + WAD_FILE_EXT
  }

  /**
   * `AddWad`: a null or empty name is invalid; a name already present is not
   * added again; a path that does not fit the buffer is invalid; a file that
   * cannot be loaded is not found; otherwise the archive is appended under
   * that name.
   */
  function AddWad(m: Manager, name: Option<string>, fs: string -> Option<seq<byte>>): (r: Outcome<(Manager, AddResult)>)
    requires Valid(m)
    ensures r.Done? ==> Valid(r.value.0) && r.value.0.basePath == m.basePath && r.value.0.pathSize == m.pathSize
    ensures name.None? || (name.Some? && CStr(name.value) == "") ==> r == Done((m, InvalidName))
    ensures name.Some? && CStr(name.value) != "" && FindWadByName(m, name).Some? ==> r == Done((m, AlreadyAdded))
    ensures r.Done? && r.value.1 != Success ==> r.value.0 == m
    ensures r.Crashed? ==> name.Some? && LoadWadFile(fs(WadPath(m, name.value))).Crashed?
    ensures r.Done? && r.value.1 == Success <==>
      name.Some? && CStr(name.value) != "" && FindWadByName(m, name).None?
      && |WadPath(m, name.value)| < m.pathSize && LoadWadFile(fs(WadPath(m, name.value))).Done?
    ensures r.Done? && r.value.1 == Success ==>
      r.value.0.wads == m.wads + [NewWadFile(name.value, LoadWadFile(fs(WadPath(m, name.value))).value, m.pathSize)]
  {
    match name
    case None => Done((m, InvalidName))
    case Some(n) =>
      if CStr(n) == "" then Done((m, InvalidName))
      else if FindWadByName(m, name).Some? then Done((m, AlreadyAdded))
      else
        var path := WadPath(m, n);
        if |path| >= m.pathSize then Done((m, InvalidName))
        else match LoadWadFile(fs(path))
          case Rejected => Done((m, FileNotFound))
          case Crashed => Crashed
          case Done(wad) => Done((m.(wads := m.wads + [NewWadFile(n, wad, m.pathSize)]), Success))
  }

  /** After a successful `AddWad`, looking the name up finds the new archive, which comes last. */
  lemma AddThenFind(m: Manager, name: string, fs: string -> Option<seq<byte>>)
    requires Valid(m)
    requires AddWad(m, Some(name), fs).Done? && AddWad(m, Some(name), fs).value.1 == Success
    ensures var m1 := AddWad(m, Some(name), fs).value.0;
      FindWadByName(m1, Some(name)) == Some(|m.wads|) && |m1.wads| == |m.wads| + 1
  {
    var m1 := AddWad(m, Some(name), fs).value.0;
    var f := m1.wads[|m.wads|];
    assert |CStr(name)| < m.pathSize by {
      assert |WadPath(m, name)| < m.pathSize;
    }
    assert CStr(f.filename) == CStr(name);
    EqualIgnoreCaseReflexive(CStr(name));
    assert forall k :: 0 <= k < |m.wads| ==> m1.wads[k] == m.wads[k];
  }

  lemma EqualIgnoreCaseReflexive(s: string)
    ensures EqualIgnoreCase(s, s)
  {
  }

  /** Adding the same name twice adds it once. */
  lemma AddTwice(m: Manager, name: string, fs: string -> Option<seq<byte>>)
    requires Valid(m)
    requires AddWad(m, Some(name), fs).Done? && AddWad(m, Some(name), fs).value.1 == Success
    ensures var m1 := AddWad(m, Some(name), fs).value.0;
      AddWad(m1, Some(name), fs) == Done((m1, AlreadyAdded))
  {
    AddThenFind(m, name, fs);
  }

  /** `Clear`: no archives are left; the base path stays. */
  function Clear(m: Manager): (r: Manager)
    requires Valid(m)
    ensures Valid(r) && r.basePath == m.basePath && r.pathSize == m.pathSize
    ensures forall name :: FindWadByName(r, Some(name)).None?
  {
    m.(wads := [])
  }
}
