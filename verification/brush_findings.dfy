/**
 * Where the brush model loader as written departs from what it evidently
 * intends, each shown on a concrete input next to the corrected behaviour.
 */
module BrushFindings {
  import opened Bytes
  import opened Wrappers
  import opened BSPFile
  import opened BSPIO
  import opened BSPRenderDefs
  import opened BSPRenderTree
  import opened BSPRenderIO
  import opened BrushLoader

  /** The node `contents` the MSVC debug heap leaves in fresh memory (0xCDCDCDCD as an `int`). */
  const DebugFill: int32 := -842150451

  // ------------------------------------------------------------- visibility

  /**
   * An empty visibility lump fails the load as written, although the lighting
   * and entity loaders accept an empty lump as "no data"; corrected, it loads
   * as no data too.
   */
  lemma EmptyVisibilityRejected(fill: int32, file: seq<byte>)
    ensures LoadVisibility(AsWritten(fill), file, Lump(0, 0)) == Rejected
    ensures LoadLighting(file, Lump(0, 0)) == Done(None)
    ensures LoadEntities(file, Lump(0, 0)) == Done(None)
    ensures LoadVisibility(Corrected, file, Lump(0, 0)) == Done(None)
  {
  }

  // ----------------------------------------------------------- mark surfaces

  /** A two-byte mark-surface lump holding entry 35000. */
  const MarkLump: seq<byte> := [0xB8, 0x88]

  lemma MarkLumpRecords()
    ensures LumpRecords(MarkLump, Lump(0, 2), 2) == Done([MarkLump])
  {
    var l := Lump(0, 2);
    assert AsSize(l.filelen) % 2 == 0 && InFile(MarkLump, l);
    assert LumpBytes(MarkLump, l) == MarkLump;
    assert MarkLump[..2] == MarkLump && MarkLump[2..] == [];
    assert Records([], 2) == [];
    assert Records(MarkLump, 2) == [MarkLump];
    assert LumpRecords(MarkLump, l, 2) == Done(Records(LumpBytes(MarkLump, l), 2));
  }

  /**
   * With 40000 surfaces, entry 35000 is read as -30536 by the loader as
   * written, which passes the `>= numsurfaces` check; a non-empty leaf that
   * lists it then flags a surface before the start of the array. Read
   * unsigned, it names surface 35000.
   */
  lemma NegativeMarkSurface(fill: int32)
    ensures LoadMarksurfaces(AsWritten(fill), 40000, MarkLump, Lump(0, 2)) == Done([-30536])
    ensures LoadMarksurfaces(Corrected, 40000, MarkLump, Lump(0, 2)) == Done([35000])
    ensures !LeafMarksOk(40000, [-30536], Leaf(CONTENTS_SOLID, [], [], None, 0, 1, []))
    ensures LeafMarksOk(40000, [35000], Leaf(CONTENTS_SOLID, [], [], None, 0, 1, []))
  {
    MarkLumpRecords();
    assert LeValue(MarkLump) == 35000 by {
      assert MarkLump[1..] == [0x88];
      assert LeValue([0x88]) == 0x88 + 256 * LeValue([]);
    }
    assert MarkLump[0..2] == MarkLump;
    assert RecordOf(MarkLump, Lump(0, 2), 2, 0) == MarkLump;
    assert MarkEntry(AsWritten(fill), MarkLump) == -30536;
    assert MarkEntry(Corrected, MarkLump) == 35000;
    assert MarkGood(AsWritten(fill), 40000, MarkLump, Lump(0, 2), 0);
    assert MarkGood(Corrected, 40000, MarkLump, Lump(0, 2), 0);
    var signed := MarksFrom(AsWritten(fill), 40000, MarkLump, Lump(0, 2), 1, 0);
    var unsigned := MarksFrom(Corrected, 40000, MarkLump, Lump(0, 2), 1, 0);
    assert MarksGood(AsWritten(fill), 40000, MarkLump, Lump(0, 2), 0, 1);
    assert MarksGood(Corrected, 40000, MarkLump, Lump(0, 2), 0, 1);
    assert signed.Done? && signed.value[0] == -30536;
    assert unsigned.Done? && unsigned.value[0] == 35000;
    assert signed.value == [-30536];
    assert unsigned.value == [35000];
  }

  /** Read unsigned, every mark entry a leaf can reach is a surface number. */
  lemma CorrectedMarksAreSurfaces(nsurfaces: nat, file: seq<byte>, l: Lump, i: nat)
    requires LoadMarksurfaces(Corrected, nsurfaces, file, l).Done?
    requires i < |LoadMarksurfaces(Corrected, nsurfaces, file, l).value|
    ensures 0 <= LoadMarksurfaces(Corrected, nsurfaces, file, l).value[i] < nsurfaces
  {
  }

  // ------------------------------------------------------------ node contents

  /**
   * As written, node `contents` is never set. When what the allocator leaves
   * there is negative (as with `DebugFill`), the parent walk takes node 0 for a
   * leaf and stops there: no other node or leaf gets a parent.
   */
  lemma {:induction false} FillStopsParentWalk(nodes: seq<Node>, leafs: seq<Leaf>)
    requires Shaped(nodes) && |nodes| > 0 && nodes[0].contents < 0
    ensures SetParent(nodes, leafs) == Done(map[NodeChild(0) := None])
  {
    assert InRange(nodes, leafs, NodeChild(0));
    assert ContentsOf(nodes, leafs, NodeChild(0)) == nodes[0].contents;
  }

  /**
   * As written with a negative fill, hull 0 turns every node child into the
   * fill value, a contents code, instead of the child's index.
   */
  lemma FillReplacesNodeChildren(nodes: seq<Node>, leafs: seq<Leaf>, prior: Hull, fill: int, i: nat, a: nat)
    requires Shaped(nodes) && MakeHull0(nodes, leafs, prior).Done?
    requires fill < 0 && forall n :: 0 <= n < |nodes| ==> nodes[n].contents == fill
    requires i < |nodes| && a < 2 && nodes[i].children[a].NodeChild?
    ensures MakeHull0(nodes, leafs, prior).value.clipnodes[i].children[a] == fill
  {
    assert Hull0Child(nodes, leafs, nodes[i].children[a]).Done?;
  }

  /**
   * The corrected loader keeps the tree in hull 0: a clip child is a node index
   * exactly where the drawing child is a node, and otherwise the leaf's contents.
   */
  lemma LoadedHull0FollowsTree(host: Endian, fo: FloatOps, prior: BrushModel, file: seq<byte>, i: nat, a: nat)
    requires |prior.hulls| == MAX_MAP_HULLS && a < 2
    ensures var r := LoadBrushModel(host, fo, prior, file);
      r.Done? && i < |r.value.nodes| ==>
      var m := r.value;
      var v := m.hulls[0].clipnodes[i].children[a];
      (v >= 0 <==> m.nodes[i].children[a].NodeChild?)
      && (v >= 0 ==> m.nodes[i].children[a] == NodeChild(v))
      && (v < 0 ==> v == m.leafs[m.nodes[i].children[a].leaf].contents)
  {
    var r := LoadBrushModel(host, fo, prior, file);
    if r.Done? && i < |r.value.nodes| {
      var m := r.value;
      Hull0FollowsTree(m.nodes, m.leafs, m.hulls[0], i, a);
    }
  }

  /**
   * The corrected loader, on a tree, gives node 0 no parent and makes every
   * node the walk reaches the parent of both its children.
   */
  lemma LoadedParents(host: Endian, fo: FloatOps, prior: BrushModel, file: seq<byte>)
    requires |prior.hulls| == MAX_MAP_HULLS
    ensures var r := LoadBrushModel(host, fo, prior, file);
      r.Done? && IsTree(r.value.nodes) ==>
      var m := r.value;
      NodeChild(0) in m.parents && m.parents[NodeChild(0)] == None
      && forall n, a :: 0 <= n < |m.nodes| && NodeChild(n) in m.parents && 0 <= a < 2 ==>
        m.nodes[n].children[a] in m.parents && m.parents[m.nodes[n].children[a]] == Some(n)
  {
    var r := LoadBrushModel(host, fo, prior, file);
    if r.Done? && IsTree(r.value.nodes) {
      var m := r.value;
      SetParentOnTree(m.nodes, m.leafs);
    }
  }
}
