/**
 * The texture manager (gl/CTextureManager.cpp): a fixed number of texture
 * slots, a case-insensitive map from texture name to slot, loading a texture
 * and loading a texture from a given `miptex_t` or from the loaded wads.
 * Linking animated textures into cycles is in `TextureAnimation`.
 *
 * The map is keyed by the lower-cased name, which is what its case-insensitive
 * hash and equality amount to (see `StringUtils.EqualIgnoreCaseSameHashI`).
 * The OpenGL texture name `glGenTextures` yields and the set of shaders the
 * shader manager knows are parameters.
 */
module TextureManager {
  import opened Bytes
  import opened Wrappers
  import opened CStrings
  import opened BSPRenderDefs
  import opened WadIO
  import opened GLMiptex
  import WadManager

  /** `sizeof(texture_t::name)`. */
  const TEXTURE_NAME_SIZE: nat := 16

  const GENERIC_SHADER: string := "LightMappedGeneric"
  const ALPHA_TEST_SHADER: string := "LightMappedAlphaTest"
  const WATER_SHADER: string := "LightMappedWater"

  /** A slot as `Initialize` leaves it: all zero. */
  const EmptyTexture: Texture :=
    Texture("\0\0\0\0\0\0\0\0\0\0\0\0\0\0\0\0", 0, 0, 0, None, 0, 0, 0, None, None, [0, 0, 0, 0])

  /** A `CTextureManager`. */
  datatype Manager = Manager(initialized: bool, textures: seq<Texture>, texmap: map<string, nat>, inUse: nat)

  /** The map key of a name: the C string, lower-cased. */
  function Key(name: string): string
  {
    Lower(CStr(name))
  }

  /**
   * The manager's invariant: the slots in use are the first `inUse`; the map
   * sends the key of each of them, and nothing else, to its slot; unused slots
   * are zero; nothing exists before `Initialize`.
   */
  predicate Valid(m: Manager)
  {
    && m.inUse <= |m.textures|
    && (!m.initialized ==> m.textures == [] && m.texmap == map[])
    && (forall i :: 0 <= i < |m.textures| ==> |m.textures[i].name| == TEXTURE_NAME_SIZE)
    && (forall i :: m.inUse <= i < |m.textures| ==> m.textures[i] == EmptyTexture)
    && (forall k :: k in m.texmap ==> m.texmap[k] < m.inUse && Key(m.textures[m.texmap[k]].name) == k)
    && (forall i :: 0 <= i < m.inUse ==> Key(m.textures[i].name) in m.texmap && m.texmap[Key(m.textures[i].name)] == i)
  }

  /** A manager before `Initialize`. */
  const Uninitialized: Manager := Manager(false, [], map[], 0)

  /** `Shutdown`: drops every texture and the map (a no-op before `Initialize`). */
  function Shutdown(m: Manager): (r: Manager)
    requires Valid(m)
    ensures Valid(r) && !r.initialized && r.textures == [] && r.inUse == 0 && r.texmap == map[]
  {
    if !m.initialized then m else Uninitialized
  }

  /** `Initialize`: shuts an initialized manager down first, then provides `count` zeroed slots. */
  function Initialize(m: Manager, count: nat): (r: Manager)
    requires Valid(m)
    ensures Valid(r) && r.initialized && |r.textures| == count && r.inUse == 0 && r.texmap == map[]
    ensures forall i :: 0 <= i < count ==> r.textures[i] == EmptyTexture
  {
    var m1 := Shutdown(m);
    Manager(true, seq(count, _ => EmptyTexture), m1.texmap, m1.inUse)
  }

  /** `FindTexture`: the slot the map holds for the name; null for a null name. */
  function FindTexture(m: Manager, name: Option<string>): (r: Option<nat>)
    requires Valid(m)
    ensures r.Some? ==> name.Some? && r.value < m.inUse
  {
    match name
    case None => None
    case Some(n) => if Key(n) in m.texmap then Some(m.texmap[Key(n)]) else None
  }

  /** Slot `i` is in use and holds a texture whose name equals `name` ignoring case. */
  predicate Holds(m: Manager, i: int, name: string)
  {
    0 <= i < m.inUse <= |m.textures| && EqualIgnoreCase(CStr(m.textures[i].name), CStr(name))
  }

  /** The map agrees with a search of the slots: it finds exactly the slot whose name matches. */
  lemma FindTextureSearchesSlots(m: Manager, name: string)
    requires Valid(m)
    ensures forall i :: FindTexture(m, Some(name)) == Some(i) <==> Holds(m, i, name)
  {
    forall i | 0 <= i < m.inUse
      ensures Holds(m, i, name) <==> Key(m.textures[i].name) == Key(name)
    {
      EqualIgnoreCaseIffLowerEqual(CStr(m.textures[i].name), CStr(name));
    }
  }

  /** The shader `LoadTexture` asks for: alpha-tested for `{`, water for `!`, else generic. */
  function ShaderName(name: string): (s: string)
    ensures At(name, 0) == '{' ==> s == ALPHA_TEST_SHADER
    ensures At(name, 0) == '!' ==> s == WATER_SHADER
    ensures At(name, 0) != '{' && At(name, 0) != '!' ==> s == GENERIC_SHADER
  {
    if At(name, 0) == '{' then ALPHA_TEST_SHADER
    else if At(name, 0) == '!' then WATER_SHADER
    else GENERIC_SHADER
  }

  /** The shader the texture gets: the one asked for, or the generic one when that is unknown. */
  function ShaderFor(name: string, shaders: set<string>): (r: Option<string>)
    ensures r.Some? ==> r.value in shaders && (r.value == ShaderName(name) || r.value == GENERIC_SHADER)
    ensures r.None? <==> ShaderName(name) !in shaders && GENERIC_SHADER !in shaders
  {
    if ShaderName(name) in shaders then Some(ShaderName(name))
    else if GENERIC_SHADER in shaders then Some(GENERIC_SHADER)
    else None
  }

  /** The bytes from a wad lump's offset on; an offset outside the file cannot be read. */
  function LumpBytesAt(file: seq<byte>, offset: int): (r: Outcome<seq<byte>>)
    ensures r.Done? <==> 0 <= offset <= |file|
    ensures r.Done? ==> r.value == file[offset..]
    ensures !r.Rejected?
  {
    if 0 <= offset <= |file| then Done(file[offset..]) else Crashed
  }

  /**
   * The texture `LoadTexture` uploads: the one given, else the one the wads
   * offer under that name (none when no wad has it).
   */
  function MiptexFor(given: Option<seq<byte>>, wads: WadManager.Manager, name: string): (r: Option<Outcome<seq<byte>>>)
    requires WadManager.Valid(wads)
    ensures given.Some? ==> r == Some(Done(given.value))
    ensures given.None? ==> (r.None? <==> WadManager.FindTextureByName(wads, Some(name)).None?)
  {
    match given
    case Some(data) => Some(Done(data))
    case None =>
      match WadManager.FindTextureByName(wads, Some(name))
      case None => None
      case Some((w, offset)) => Some(LumpBytesAt(wads.wads[w].wad.value.file, offset))
  }

  /**
   * The upload goes through but leaves no texture: the size gives no image,
   * or no OpenGL texture name was to be had.
   */
  predicate Declined(data: seq<byte>, glName: nat)
  {
    UploadMiptex(data).Done? && (UploadMiptex(data).value.None? || glName == 0)
  }

  /** The slot a newly loaded texture fills. */
  function NewTexture(slot: Texture, name: string, data: seq<byte>, tex: nat, shaders: set<string>): (t: Texture)
    requires |data| >= MIPTEX_SIZE
    ensures |t.name| == TEXTURE_NAME_SIZE && CStr(t.name) == CStr(name)[..if |CStr(name)| < TEXTURE_NAME_SIZE then |CStr(name)| else TEXTURE_NAME_SIZE - 1]
    ensures t.glTexture == tex && t.shader == ShaderFor(name, shaders)
    ensures var m := DecodeMiptex(data[..MIPTEX_SIZE]); t.width == m.width && t.height == m.height
  {
    var m := DecodeMiptex(data[..MIPTEX_SIZE]);
    slot.(name := BoundedCopy(name, TEXTURE_NAME_SIZE), width := m.width, height := m.height,
          glTexture := tex, shader := ShaderFor(name, shaders))
  }

  /**
   * The last step of `LoadTexture`: the texture takes the next free slot and
   * enters the map. The map cannot already hold its name (the name was looked
   * up first), so the branch that zeroes the slot again is never taken.
   */
  function Insert(m: Manager, name: string, data: seq<byte>, tex: nat, shaders: set<string>): (r: (Manager, Option<nat>))
    requires Valid(m) && FindTexture(m, Some(name)).None?
    requires |CStr(name)| < TEXTURE_NAME_SIZE && m.inUse < |m.textures| && |data| >= MIPTEX_SIZE
    ensures Valid(r.0) && r.1 == Some(m.inUse) && Holds(r.0, m.inUse, name)
    ensures r.0.inUse == m.inUse + 1 && |r.0.textures| == |m.textures|
    ensures forall i :: 0 <= i < |m.textures| && i != m.inUse ==> r.0.textures[i] == m.textures[i]
    ensures r.0.textures[m.inUse] == NewTexture(m.textures[m.inUse], name, data, tex, shaders)
  {
    var index := m.inUse;
    var t := NewTexture(m.textures[index], name, data, tex, shaders);
    assert Key(t.name) == Key(name);
    if Key(t.name) in m.texmap then
      // Where the source zeroes the slot and returns null; the name was not in the map.
      assert false; (m, None)
    else
      var r := Manager(m.initialized, m.textures[index := t], m.texmap[Key(t.name) := index], m.inUse + 1);
      LoadedValid(m, r, name, t);
      (r, Some(index))
  }

  /**
   * Uploading the texture and, when that yields an OpenGL texture, storing it.
   * `glName` is the name `glGenTextures` hands out.
   */
  function UploadAndInsert(m: Manager, name: string, data: seq<byte>, glName: nat, shaders: set<string>): (r: Outcome<(Manager, Option<nat>)>)
    requires Valid(m) && FindTexture(m, Some(name)).None?
    requires |CStr(name)| < TEXTURE_NAME_SIZE && m.inUse < |m.textures|
    ensures !r.Rejected?
    ensures r.Crashed? <==> UploadMiptex(data).Crashed?
    ensures r == Done((m, None)) <==> Declined(data, glName)
    ensures r.Done? && r.value.1.Some? ==> |data| >= MIPTEX_SIZE && r.value == Insert(m, name, data, glName, shaders)
    ensures r.Done? ==> Valid(r.value.0)
  {
    var image :- UploadMiptex(data);
    var tex := if image.Some? then glName else 0;
    if tex == 0 then Done((m, None))
    else Done(Insert(m, name, data, tex, shaders))
  }

  /**
   * `LoadTexture`: a texture already loaded under that name (ignoring case) is
   * returned as it is. Otherwise the name must fit the name buffer, a slot
   * must be free, the texture must be given or found in the wads, and the
   * upload must yield a texture name; the texture then takes the next slot
   * and enters the map. Any failure leaves the manager unchanged.
   */
  function LoadTexture(m: Manager, name: Option<string>, given: Option<seq<byte>>, wads: WadManager.Manager,
                       glName: nat, shaders: set<string>): (r: Outcome<(Manager, Option<nat>)>)
    requires Valid(m) && WadManager.Valid(wads)
    ensures !r.Rejected?
    ensures r.Done? ==> Valid(r.value.0)
    ensures name.None? ==> r == Done((m, None))
    ensures name.Some? && FindTexture(m, name).Some? ==> r == Done((m, FindTexture(m, name)))
    ensures r.Done? && r.value.1.None? ==> r.value.0 == m
    ensures r.Done? && r.value.1.Some? ==> Holds(r.value.0, r.value.1.value, name.value)
    ensures r.Done? && r.value.1.Some? && FindTexture(m, name).None? ==>
      && r.value.1.value == m.inUse && r.value.0.inUse == m.inUse + 1
      && |r.value.0.textures| == |m.textures|
      && (forall i :: 0 <= i < |m.textures| && i != m.inUse ==> r.value.0.textures[i] == m.textures[i])
      && r.value.0.textures[m.inUse].glTexture == glName
      && r.value.0.textures[m.inUse].shader == ShaderFor(name.value, shaders)
    ensures name.Some? && FindTexture(m, name).None? ==>
      (r == Done((m, None)) <==>
        |CStr(name.value)| >= TEXTURE_NAME_SIZE || m.inUse >= |m.textures|
        || MiptexFor(given, wads, name.value).None?
        || (MiptexFor(given, wads, name.value).value.Done? && Declined(MiptexFor(given, wads, name.value).value.value, glName)))
  {
    match name
    case None => Done((m, None))
    case Some(n) =>
      match FindTexture(m, name)
      case Some(i) =>
        FindTextureSearchesSlots(m, n);
        Done((m, Some(i)))
      case None =>
        if |CStr(n)| >= TEXTURE_NAME_SIZE then Done((m, None))
        else if m.inUse >= |m.textures| then Done((m, None))
        else match MiptexFor(given, wads, n)
          case None => Done((m, None))
          case Some(source) =>
            var data :- source;
            UploadAndInsert(m, n, data, glName, shaders)
  }

  /** Adding a texture under a fresh key in the next slot keeps the invariant. */
  lemma LoadedValid(m: Manager, r: Manager, name: string, t: Texture)
    requires Valid(m) && m.inUse < |m.textures| && |CStr(name)| < TEXTURE_NAME_SIZE
    requires |t.name| == TEXTURE_NAME_SIZE && CStr(t.name) == CStr(name) && Key(t.name) !in m.texmap
    requires r == Manager(m.initialized, m.textures[m.inUse := t], m.texmap[Key(t.name) := m.inUse], m.inUse + 1)
    ensures Valid(r) && Holds(r, m.inUse, name)
  {
    AddedValid(m, r, t);
    EqualIgnoreCaseIffLowerEqual(CStr(t.name), CStr(name));
  }

  /** The invariant alone, for a texture whose key is not yet mapped. */
  lemma AddedValid(m: Manager, r: Manager, t: Texture)
    requires Valid(m) && m.initialized && m.inUse < |m.textures| && |t.name| == TEXTURE_NAME_SIZE && Key(t.name) !in m.texmap
    requires r.initialized && r.inUse == m.inUse + 1
    requires r.textures == m.textures[m.inUse := t] && r.texmap == m.texmap[Key(t.name) := m.inUse]
    ensures Valid(r)
  {
    AddedMapsBack(m, r, t);
    AddedSlotsMapped(m, r, t);
  }

  /** After the addition every key still names a slot in use holding that key. */
  lemma AddedMapsBack(m: Manager, r: Manager, t: Texture)
    requires Valid(m) && m.inUse < |m.textures| && Key(t.name) !in m.texmap
    requires r.inUse == m.inUse + 1
    requires r.textures == m.textures[m.inUse := t] && r.texmap == m.texmap[Key(t.name) := m.inUse]
    ensures forall k :: k in r.texmap ==> r.texmap[k] < r.inUse && Key(r.textures[r.texmap[k]].name) == k
  {
    forall k | k in r.texmap ensures r.texmap[k] < r.inUse && Key(r.textures[r.texmap[k]].name) == k {
      if k != Key(t.name) {
        assert r.texmap[k] == m.texmap[k] && r.texmap[k] != m.inUse;
      }
    }
  }

  /** After the addition every slot in use is mapped from its key. */
  lemma AddedSlotsMapped(m: Manager, r: Manager, t: Texture)
    requires Valid(m) && m.inUse < |m.textures| && Key(t.name) !in m.texmap
    requires r.inUse == m.inUse + 1
    requires r.textures == m.textures[m.inUse := t] && r.texmap == m.texmap[Key(t.name) := m.inUse]
    ensures forall i :: 0 <= i < r.inUse ==> Key(r.textures[i].name) in r.texmap && r.texmap[Key(r.textures[i].name)] == i
  {
    forall i | 0 <= i < r.inUse
      ensures Key(r.textures[i].name) in r.texmap && r.texmap[Key(r.textures[i].name)] == i
    {
      if i != m.inUse {
        assert r.textures[i] == m.textures[i];
        assert Key(m.textures[i].name) in m.texmap;
      }
    }
  }

  /** After a texture is loaded, looking its name up finds the slot it was given. */
  lemma LoadThenFind(m: Manager, name: string, given: Option<seq<byte>>, wads: WadManager.Manager,
                     glName: nat, shaders: set<string>)
    requires Valid(m) && WadManager.Valid(wads)
    ensures var r := LoadTexture(m, Some(name), given, wads, glName, shaders);
      r.Done? && r.value.1.Some? ==> FindTexture(r.value.0, Some(name)) == r.value.1
  {
    var r := LoadTexture(m, Some(name), given, wads, glName, shaders);
    if r.Done? {
      FindTextureSearchesSlots(r.value.0, name);
    }
  }

  /** Loading a name a second time returns the same slot and changes nothing. */
  lemma LoadTwice(m: Manager, name: string, given: Option<seq<byte>>, wads: WadManager.Manager,
                  glName: nat, shaders: set<string>, given2: Option<seq<byte>>, glName2: nat)
    requires Valid(m) && WadManager.Valid(wads)
    ensures var r := LoadTexture(m, Some(name), given, wads, glName, shaders);
      r.Done? && r.value.1.Some? ==> LoadTexture(r.value.0, Some(name), given2, wads, glName2, shaders) == Done(r.value)
  {
    LoadThenFind(m, name, given, wads, glName, shaders);
  }
}
