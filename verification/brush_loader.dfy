/**
 * `LoadBrushModel` (bsp/BSPRenderIO.cpp): checks the version, then runs the
 * lump loaders in their fixed order, stopping at the first that fails, builds
 * hull 0 from the drawing nodes and applies the first sub-model's set-up.
 */
module BrushLoader {
  import opened Bytes
  import opened Wrappers
  import opened BSPFile
  import opened BSPIO
  import opened BSPRenderDefs
  import opened BSPRenderTree
  import opened BSPRenderIO

  /**
   * One pass of the sub-model set-up loop: the hull heads, surface range,
   * bounds and visible-leaf count of the brush model come from sub-model `bm`;
   * hulls 1 to 3 end at the last clip node.
   */
  function ApplySubmodel(m: BrushModel, bm: Submodel): (r: BrushModel)
    requires |m.hulls| == MAX_MAP_HULLS && |bm.headnode| == MAX_MAP_HULLS
    ensures |r.hulls| == MAX_MAP_HULLS
    ensures r.hulls[0] == m.hulls[0].(firstclipnode := bm.headnode[0])
    ensures forall j :: 1 <= j < MAX_MAP_HULLS ==>
      r.hulls[j] == m.hulls[j].(firstclipnode := bm.headnode[j], lastclipnode := |m.clipnodes| - 1)
    ensures r.firstmodelsurface == bm.firstface && r.nummodelsurfaces == bm.numfaces
    ensures r.mins == bm.mins && r.maxs == bm.maxs && r.numleafs == bm.visleafs
    ensures WellFormed(m) ==> WellFormed(r)
    ensures r.(hulls := m.hulls, firstmodelsurface := m.firstmodelsurface, nummodelsurfaces := m.nummodelsurfaces,
               mins := m.mins, maxs := m.maxs, numleafs := m.numleafs) == m
  {
    var last := |m.clipnodes| - 1;
    var hulls := seq(MAX_MAP_HULLS, j requires 0 <= j < MAX_MAP_HULLS =>
      if j == 0 then m.hulls[0].(firstclipnode := bm.headnode[0])
      else m.hulls[j].(firstclipnode := bm.headnode[j], lastclipnode := last));
    m.(hulls := hulls, firstmodelsurface := bm.firstface, nummodelsurfaces := bm.numfaces,
       mins := bm.mins, maxs := bm.maxs, numleafs := bm.visleafs)
  }

  /**
   * The sub-model set-up loop as it affects the model being loaded: only its
   * first pass writes to it (see `ApplySubmodel`); with no sub-models nothing
   * changes.
   */
  function SetUpSubmodels(m: BrushModel): (r: BrushModel)
    requires |m.hulls| == MAX_MAP_HULLS
    requires forall i :: 0 <= i < |m.submodels| ==> |m.submodels[i].headnode| == MAX_MAP_HULLS
    ensures |m.submodels| == 0 ==> r == m
    ensures WellFormed(m) ==> WellFormed(r)
    ensures r.nodes == m.nodes && r.marksurfaces == m.marksurfaces && r.visdata == m.visdata
    ensures |r.hulls| == MAX_MAP_HULLS && r.hulls[3].clipnodes == m.hulls[3].clipnodes
  {
    if |m.submodels| > 0 then ApplySubmodel(m, m.submodels[0]) else m
  }

  /** The version field of the file, which must be read before anything else. */
  function Version(file: seq<byte>): int
    requires |file| >= 4
  {
    IntAt(file, 0)
  }

  /** Planes in storage for twice their number; every surface bound to an existing texture info with a texture. */
  predicate SurfacesOk(m: BrushModel)
  {
    && m.planeSlots == 2 * |m.planes|
    && forall i :: 0 <= i < |m.surfaces| ==>
         0 <= m.surfaces[i].texinfo < |m.texinfo| && m.texinfo[m.surfaces[i].texinfo].texture.Some?
  }

  /**
   * Mark entries below the surface count, every non-empty leaf's entries naming
   * surfaces, and the parent links of the walk from node 0.
   */
  predicate TreeOk(m: BrushModel)
  {
    && (forall i :: 0 <= i < |m.marksurfaces| ==> m.marksurfaces[i] < |m.surfaces|)
    && AllLeafMarksOk(|m.surfaces|, m.marksurfaces, m.leafs)
    && Shaped(m.nodes) && |m.nodes| > 0
    && SetParent(m.nodes, m.leafs) == Done(m.parents)
  }

  /** Hull 0 built from the nodes; hulls 1 and 2 over the clip nodes with their boxes. */
  predicate HullsOk(m: BrushModel)
  {
    && Shaped(m.nodes) && Hull0Ok(m.nodes, m.leafs)
    && |m.hulls| == MAX_MAP_HULLS
    && m.hulls[0].clipnodes == MakeHull0(m.nodes, m.leafs, m.hulls[0]).value.clipnodes
    && m.hulls[1].clipnodes == m.clipnodes && m.hulls[2].clipnodes == m.clipnodes
    && m.hulls[1].clipMins == Hull1Mins && m.hulls[1].clipMaxs == Hull1Maxs
    && m.hulls[2].clipMins == Hull2Mins && m.hulls[2].clipMaxs == Hull2Maxs
  }

  /** What the loaders establish about a loaded model. */
  predicate WellFormed(m: BrushModel)
  {
    SurfacesOk(m) && TreeOk(m) && HullsOk(m) && m.numframes == 2
  }

  /**
   * The loaders up to the faces: vertices, edges, surface edges, textures,
   * lighting, planes, texture infos and surfaces.
   */
  function LoadSurfaces(fo: FloatOps, h: Header, buf: seq<byte>, prior: BrushModel): (r: Outcome<BrushModel>)
    requires |h.lumps| == HEADER_LUMPS
    ensures r.Done? ==> SurfacesOk(r.value)
    ensures r.Done? ==> r.value.hulls == prior.hulls
  {
    var g :- LoadGeometry(fo, h, buf, prior);
    var textures := LoadTextures(LumpOf(h, Textures), prior.textures);
    var planes :- LoadPlanes(fo, buf, LumpOf(h, Planes));
    LoadFacesInto(fo, h, buf, g.(textures := textures, planes := planes.0, planeSlots := planes.1))
  }

  /** The texture infos over the model's textures, then the faces over those. */
  function LoadFacesInto(fo: FloatOps, h: Header, buf: seq<byte>, m: BrushModel): (r: Outcome<BrushModel>)
    requires |h.lumps| == HEADER_LUMPS
    ensures r.Done? ==> r.value == m.(texinfo := r.value.texinfo, surfaces := r.value.surfaces)
    ensures r.Done? ==> forall i :: 0 <= i < |r.value.surfaces| ==>
      0 <= r.value.surfaces[i].texinfo < |r.value.texinfo| && r.value.texinfo[r.value.surfaces[i].texinfo].texture.Some?
  {
    var texinfo :- LoadTexinfo(fo, m.textures, buf, LumpOf(h, Texinfo));
    var faces :- LoadFaces(texinfo, buf, LumpOf(h, Faces));
    Done(m.(texinfo := texinfo, surfaces := faces))
  }

  /**
   * The loaders before the textures' users: vertices, edges, surface edges
   * and lighting (the texture loader between them cannot fail).
   */
  function LoadGeometry(fo: FloatOps, h: Header, buf: seq<byte>, prior: BrushModel): (r: Outcome<BrushModel>)
    requires |h.lumps| == HEADER_LUMPS
    ensures r.Done? ==> r.value.hulls == prior.hulls
  {
    var vertexes :- LoadVertexes(fo, buf, LumpOf(h, Vertexes));
    var edges :- LoadEdges(buf, LumpOf(h, Edges));
    var surfedges :- LoadSurfedges(buf, LumpOf(h, Surfedges));
    var lightdata :- LoadLighting(buf, LumpOf(h, Lighting));
    Done(prior.(vertexes := vertexes, edges := edges, surfedges := surfedges, lightdata := lightdata))
  }

  /** Marking underwater surfaces keeps every surface's texture info. */
  lemma UnderwaterKeepsTexinfo(surfaces: seq<Surface>, marked: set<int>)
    ensures forall i :: 0 <= i < |surfaces| ==> Underwater(surfaces, marked)[i].texinfo == surfaces[i].texinfo
  {
    forall i | 0 <= i < |surfaces| ensures Underwater(surfaces, marked)[i].texinfo == surfaces[i].texinfo {
      var f := Underwater(surfaces, marked)[i];
      assert f == Flag(surfaces[i], i in marked);
      assert f == surfaces[i].(flags := f.flags);
    }
  }

  /** The loaders of the BSP tree: mark surfaces, visibility, leaves and nodes. */
  function LoadTree(v: Variant, h: Header, buf: seq<byte>, m: BrushModel): (r: Outcome<BrushModel>)
    requires |h.lumps| == HEADER_LUMPS && SurfacesOk(m)
    ensures r.Done? ==> SurfacesOk(r.value) && TreeOk(r.value)
    ensures r.Done? ==> r.value.hulls == m.hulls
    ensures r.Done? && v.AsWritten? ==> LumpOf(h, Visibility).filelen != 0
    ensures r.Done? ==> (r.value.visdata.None? <==> LumpOf(h, Visibility).filelen == 0)
    ensures r.Done? ==> forall i :: 0 <= i < |r.value.nodes| ==>
      r.value.nodes[i].contents == if v.Corrected? then 0 else v.fill
    ensures r.Done? && v.Corrected? ==> forall i :: 0 <= i < |r.value.marksurfaces| ==> 0 <= r.value.marksurfaces[i]
  {
    var marks :- LoadMarksurfaces(v, |m.surfaces|, buf, LumpOf(h, Marksurfaces));
    var visdata :- LoadVisibility(v, buf, LumpOf(h, Visibility));
    var leafsAndSurfaces :- LoadLeafs(m.surfaces, marks, buf, LumpOf(h, Leafs));
    UnderwaterKeepsTexinfo(m.surfaces, Marked(marks, leafsAndSurfaces.0));
    var nodesAndParents :- LoadNodes(v, leafsAndSurfaces.0, buf, LumpOf(h, Nodes));
    Done(m.(marksurfaces := marks, visdata := visdata, leafs := leafsAndSurfaces.0,
            surfaces := leafsAndSurfaces.1, nodes := nodesAndParents.0, parents := nodesAndParents.1))
  }

  /**
   * The remaining loaders (clip nodes, entities, sub-models), then hull 0 and
   * the frame count.
   */
  function LoadHulls(fo: FloatOps, h: Header, buf: seq<byte>, m: BrushModel): (r: Outcome<BrushModel>)
    requires |h.lumps| == HEADER_LUMPS && |m.hulls| == MAX_MAP_HULLS && Shaped(m.nodes)
    ensures r.Done? ==> HullsOk(r.value) && r.value.numframes == 2
    ensures r.Done? ==> r.value.hulls[3] == m.hulls[3]
    ensures r.Done? ==> forall i :: 0 <= i < |r.value.submodels| ==> |r.value.submodels[i].headnode| == MAX_MAP_HULLS
    ensures r.Done? ==> r.value.nodes == m.nodes && r.value.marksurfaces == m.marksurfaces && r.value.visdata == m.visdata
    ensures r.Done? ==> (SurfacesOk(m) ==> SurfacesOk(r.value)) && (TreeOk(m) ==> TreeOk(r.value))
    ensures r.Done? ==> r.value.(hulls := m.hulls, clipnodes := m.clipnodes, entities := m.entities,
                                 submodels := m.submodels, numframes := m.numframes) == m
  {
    var clipnodes :- LoadClipnodes(buf, LumpOf(h, Clipnodes));
    var entities :- LoadEntities(buf, LumpOf(h, Entities));
    var submodels :- LoadSubmodels(fo, buf, LumpOf(h, Models));
    BuildHulls(m, clipnodes, entities, submodels)
  }

  /** Hull 0 from the nodes, hulls 1 and 2 over the loaded clip nodes, and the frame count. */
  function BuildHulls(m: BrushModel, clipnodes: seq<ClipNode>, entities: Option<seq<byte>>,
                      submodels: seq<Submodel>): (r: Outcome<BrushModel>)
    requires |m.hulls| == MAX_MAP_HULLS && Shaped(m.nodes)
    requires forall i :: 0 <= i < |submodels| ==> |submodels[i].headnode| == MAX_MAP_HULLS
    ensures r.Done? ==> HullsOk(r.value) && r.value.numframes == 2
    ensures r.Done? ==> r.value.hulls[3] == m.hulls[3]
    ensures r.Done? ==> r.value.submodels == submodels
    ensures r.Done? ==> r.value.nodes == m.nodes && r.value.marksurfaces == m.marksurfaces && r.value.visdata == m.visdata
    ensures r.Done? ==> (SurfacesOk(m) ==> SurfacesOk(r.value)) && (TreeOk(m) ==> TreeOk(r.value))
    ensures r.Done? ==> r.value.(hulls := m.hulls, clipnodes := m.clipnodes, entities := m.entities,
                                 submodels := m.submodels, numframes := m.numframes) == m
  {
    var hull0 :- MakeHull0(m.nodes, m.leafs, m.hulls[0]);
    var hulls := [hull0, ClipHull(m.hulls[1], clipnodes, Hull1Mins, Hull1Maxs),
                  ClipHull(m.hulls[2], clipnodes, Hull2Mins, Hull2Maxs), m.hulls[3]];
    var r := m.(clipnodes := clipnodes, entities := entities, submodels := submodels, hulls := hulls, numframes := 2);
    HullFieldsOnly(m, r);
    Done(r)
  }

  /** Surface and tree facts do not read the fields the hull loader writes. */
  lemma HullFieldsOnly(m: BrushModel, r: BrushModel)
    requires r.(hulls := m.hulls, clipnodes := m.clipnodes, entities := m.entities,
                submodels := m.submodels, numframes := m.numframes) == m
    ensures SurfacesOk(m) ==> SurfacesOk(r)
    ensures TreeOk(m) ==> TreeOk(r)
  {
  }

  /**
   * The brush model loader, as written or corrected. `prior` is the model
   * record it fills in: fields no loader writes keep their values (the texture
   * list when the texture lump is not empty, hull 3's clip nodes and box).
   */
  function LoadBrushModelWith(v: Variant, host: Endian, fo: FloatOps, prior: BrushModel, file: seq<byte>): (r: Outcome<BrushModel>)
    requires |prior.hulls| == MAX_MAP_HULLS
    ensures |file| < 4 ==> r.Crashed?
    ensures |file| >= 4 && Version(file) != BSPVERSION ==> r.Rejected?
    ensures |file| >= 4 && Version(file) == BSPVERSION && |file| < HEADER_SIZE ==> r.Crashed?
    ensures r.Done? ==> |file| >= HEADER_SIZE && Version(file) == BSPVERSION
    ensures r.Done? ==> WellFormed(r.value)
    ensures r.Done? && v.AsWritten? ==> LumpOf(ReadHeader(file), Visibility).filelen != 0
    ensures r.Done? ==> (r.value.visdata.None? <==> LumpOf(ReadHeader(file), Visibility).filelen == 0)
    ensures r.Done? ==> forall i :: 0 <= i < |r.value.nodes| ==>
      r.value.nodes[i].contents == if v.Corrected? then 0 else v.fill
    ensures r.Done? && v.Corrected? ==> forall i :: 0 <= i < |r.value.marksurfaces| ==> 0 <= r.value.marksurfaces[i]
    ensures r.Done? ==> r.value.hulls[3].clipnodes == prior.hulls[3].clipnodes
  {
    if |file| < 4 then Crashed
    else if Version(file) != BSPVERSION then Rejected
    else if |file| < HEADER_SIZE then Crashed
    else LoadLumps(v, fo, prior, ReadHeader(file), InPlaceHeader(host, file))
  }

  /** The loaders in order, once the header has been accepted. */
  function LoadLumps(v: Variant, fo: FloatOps, prior: BrushModel, h: Header, buf: seq<byte>): (r: Outcome<BrushModel>)
    requires |prior.hulls| == MAX_MAP_HULLS && |h.lumps| == HEADER_LUMPS
    ensures r.Done? ==> WellFormed(r.value)
    ensures r.Done? && v.AsWritten? ==> LumpOf(h, Visibility).filelen != 0
    ensures r.Done? ==> (r.value.visdata.None? <==> LumpOf(h, Visibility).filelen == 0)
    ensures r.Done? ==> forall i :: 0 <= i < |r.value.nodes| ==>
      r.value.nodes[i].contents == if v.Corrected? then 0 else v.fill
    ensures r.Done? && v.Corrected? ==> forall i :: 0 <= i < |r.value.marksurfaces| ==> 0 <= r.value.marksurfaces[i]
    ensures r.Done? ==> r.value.hulls[3].clipnodes == prior.hulls[3].clipnodes
  {
    var m :- LoadFront(v, fo, prior, h, buf);
    FinishModel(fo, h, buf, m)
  }

  /** The surface loaders, then the tree loaders. */
  function LoadFront(v: Variant, fo: FloatOps, prior: BrushModel, h: Header, buf: seq<byte>): (r: Outcome<BrushModel>)
    requires |h.lumps| == HEADER_LUMPS
    ensures r.Done? ==> SurfacesOk(r.value) && TreeOk(r.value) && r.value.hulls == prior.hulls
    ensures r.Done? && v.AsWritten? ==> LumpOf(h, Visibility).filelen != 0
    ensures r.Done? ==> (r.value.visdata.None? <==> LumpOf(h, Visibility).filelen == 0)
    ensures r.Done? ==> forall i :: 0 <= i < |r.value.nodes| ==>
      r.value.nodes[i].contents == if v.Corrected? then 0 else v.fill
    ensures r.Done? && v.Corrected? ==> forall i :: 0 <= i < |r.value.marksurfaces| ==> 0 <= r.value.marksurfaces[i]
  {
    var m1 :- LoadSurfaces(fo, h, buf, prior);
    LoadTree(v, h, buf, m1)
  }

  /** The hull loaders, then the sub-model set-up, over a model with its surfaces and tree. */
  function FinishModel(fo: FloatOps, h: Header, buf: seq<byte>, m: BrushModel): (r: Outcome<BrushModel>)
    requires |m.hulls| == MAX_MAP_HULLS && |h.lumps| == HEADER_LUMPS && SurfacesOk(m) && TreeOk(m)
    ensures r.Done? ==> WellFormed(r.value)
    ensures r.Done? ==> r.value.nodes == m.nodes && r.value.marksurfaces == m.marksurfaces && r.value.visdata == m.visdata
    ensures r.Done? ==> r.value.hulls[3].clipnodes == m.hulls[3].clipnodes
  {
    var m3 :- LoadHulls(fo, h, buf, m);
    Done(SetUpSubmodels(m3))
  }

  /** `LoadBrushModel` as written, with `fill` left in every node's contents. */
  function LoadBrushModelAsWritten(fill: int32, host: Endian, fo: FloatOps, prior: BrushModel, file: seq<byte>): (r: Outcome<BrushModel>)
    requires |prior.hulls| == MAX_MAP_HULLS
    ensures r.Done? ==> (WellFormed(r.value) && |file| >= HEADER_SIZE
      && LumpOf(ReadHeader(file), Visibility).filelen != 0)
    ensures r.Done? ==> forall i :: 0 <= i < |r.value.nodes| ==> r.value.nodes[i].contents == fill
  {
    LoadBrushModelWith(AsWritten(fill), host, fo, prior, file)
  }

  /**
   * `LoadBrushModel` with its mistakes corrected: every node's contents is 0, an
   * empty visibility lump loads as no data, mark entries are unsigned.
   */
  function LoadBrushModel(host: Endian, fo: FloatOps, prior: BrushModel, file: seq<byte>): (r: Outcome<BrushModel>)
    requires |prior.hulls| == MAX_MAP_HULLS
    ensures r.Done? ==> WellFormed(r.value)
    ensures r.Done? ==> forall i :: 0 <= i < |r.value.nodes| ==> r.value.nodes[i].contents == 0
    ensures r.Done? ==> forall i :: 0 <= i < |r.value.marksurfaces| ==> 0 <= r.value.marksurfaces[i]
  {
    LoadBrushModelWith(Corrected, host, fo, prior, file)
  }
}
