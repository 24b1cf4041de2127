/**
 * The in-memory form of a brush model (bsp/BSPRenderDefs.h), as the loader of
 * bsp/BSPRenderIO.cpp builds it.
 *
 * Pointers into the model's own arrays are kept as indices: a surface names its
 * plane and texture info by index, a mark-surface entry names a surface, a node
 * child is a `Child` (a node or a leaf index). Floating-point fields are reals.
 */
module BSPRenderDefs {
  import opened Bytes
  import opened Wrappers
  import opened BSPFile

  /** Surface flags (`msurface_t::flags`). */
  type Flags = bv32

  const SURF_PLANEBACK: Flags := 2
  const SURF_DRAWSKY: Flags := 4
  const SURF_DRAWSPRITE: Flags := 8
  const SURF_DRAWTURB: Flags := 0x10
  const SURF_DRAWTILED: Flags := 0x20
  const SURF_DRAWBACKGROUND: Flags := 0x40
  const SURF_UNDERWATER: Flags := 0x80

  function SurfFlags(): (r: seq<Flags>)
    ensures |r| == 7
  {
    [SURF_PLANEBACK, SURF_DRAWSKY, SURF_DRAWSPRITE, SURF_DRAWTURB,
     SURF_DRAWTILED, SURF_DRAWBACKGROUND, SURF_UNDERWATER]
  }

  /** Every surface flag is a single bit, and no two share a bit. */
  lemma SurfFlagsAreDistinctBits()
    ensures forall i :: 0 <= i < 7 ==> SurfFlags()[i] != 0 && SurfFlags()[i] & (SurfFlags()[i] - 1) == 0
    ensures forall i, j :: 0 <= i < 7 && 0 <= j < 7 && i != j ==> SurfFlags()[i] & SurfFlags()[j] == 0
  {
  }

  /** Setting flag bits never clears another bit. */
  lemma SettingFlagsKeepsOthers(f: Flags, b: Flags)
    ensures (f | b) & b == b
    ensures (f | b) & !b == f & !b
  {
  }

  datatype Vertex = Vertex(position: seq<real>)

  /** An edge's two vertex numbers, each an `unsigned short`. */
  datatype Edge = Edge(v: seq<nat>)

  /**
   * A plane. `ptype` is the on-disk type converted to a byte; `signbits` has bit
   * `j` set when component `j` of the normal is negative.
   */
  datatype Plane = Plane(normal: seq<real>, dist: real, ptype: byte, signbits: byte)

  /**
   * A texture (`texture_t`): its 16-character name buffer, size, OpenGL name,
   * shader and animation links. `animNext` and `alternate` name other
   * textures by their slot in the texture manager; the draw-time
   * `texturechain` is not modelled. Brush model loading only reads `name`.
   */
  datatype Texture = Texture(
    name: string, width: nat, height: nat, glTexture: nat, shader: Option<string>,
    animTotal: int, animMin: int, animMax: int, animNext: Option<nat>, alternate: Option<nat>,
    offsets: seq<nat>)

  /**
   * Texture info. `texture` is `None` for the placeholder `r_notexture_mip`,
   * which is a null pointer.
   */
  datatype TexInfo = TexInfo(vecs: seq<real>, mipadjust: nat, texture: Option<Texture>, flags: int)

  /** `texturemins` and `extents` of a surface, per texture axis. */
  datatype TexBounds = TexBounds(texturemins: seq<int>, extents: seq<int>)

  /**
   * A surface. `samples` is the offset of its lighting in the lighting data,
   * `None` for a null pointer. `bounds` is `None` where the loader leaves
   * `texturemins` and `extents` unset.
   */
  datatype Surface = Surface(
    plane: int, flags: Flags, firstedge: int, numedges: int, texinfo: nat,
    styles: seq<byte>, samples: Option<int>, bounds: Option<TexBounds>)

  /**
   * A leaf. `vis` is the offset of its compressed visibility data, `None` for a
   * null pointer; its mark surfaces are entries `firstmarksurface ..
   * firstmarksurface + nummarksurfaces` of the model's mark-surface list.
   */
  datatype Leaf = Leaf(
    contents: int, mins: seq<int>, maxs: seq<int>, vis: Option<int>,
    firstmarksurface: nat, nummarksurfaces: nat, ambient: seq<byte>)

  /** A node: its splitting plane, its two children and its surfaces. */
  datatype Node = Node(
    contents: int, mins: seq<int>, maxs: seq<int>, plane: int, children: seq<Child>,
    firstsurface: nat, numsurfaces: nat)

  /** A clip node (`dclipnode_t`): a negative child is a contents code, any other a clip-node index. */
  datatype ClipNode = ClipNode(planenum: int, children: seq<int>)

  /** A collision hull. Its planes are always the model's planes. */
  datatype Hull = Hull(
    clipnodes: seq<ClipNode>, firstclipnode: int, lastclipnode: int,
    clipMins: seq<real>, clipMaxs: seq<real>)

  /** A zero-filled hull. */
  const EmptyHull: Hull := Hull([], 0, 0, [0.0, 0.0, 0.0], [0.0, 0.0, 0.0])

  /** A sub-model (`dmodel_t`) as the loader stores it. */
  datatype Submodel = Submodel(
    mins: seq<real>, maxs: seq<real>, origin: seq<real>, headnode: seq<int>,
    visleafs: int, firstface: int, numfaces: int)

  /**
   * A loaded brush model (`bmodel_t`). `planeSlots` is the number of planes
   * allocated, of which the first `|planes|` are loaded. `parents` holds the
   * parent links `Mod_SetParent` writes: a node or leaf that is absent was never
   * given one, `None` is a null parent.
   */
  datatype BrushModel = BrushModel(
    vertexes: seq<Vertex>,
    edges: seq<Edge>,
    surfedges: seq<int>,
    textures: Option<seq<Option<Texture>>>,
    lightdata: Option<seq<byte>>,
    planes: seq<Plane>,
    planeSlots: nat,
    texinfo: seq<TexInfo>,
    surfaces: seq<Surface>,
    marksurfaces: seq<int>,
    visdata: Option<seq<byte>>,
    leafs: seq<Leaf>,
    nodes: seq<Node>,
    parents: map<Child, Option<nat>>,
    clipnodes: seq<ClipNode>,
    entities: Option<seq<byte>>,
    submodels: seq<Submodel>,
    hulls: seq<Hull>,
    numframes: int,
    firstmodelsurface: int,
    nummodelsurfaces: int,
    mins: seq<real>,
    maxs: seq<real>,
    numleafs: int)
}
