/**
 * The passes of bsp/BSPRenderIO.cpp that walk the loaded tree: the underwater
 * flag `Mod_LoadLeafs` spreads to the surfaces of non-empty leaves, the parent
 * links `Mod_SetParent` writes, and the clipping hull `Mod_MakeHull0` builds
 * from the drawing tree.
 */
module BSPRenderTree {
  import opened Wrappers
  import opened BSPFile
  import opened BSPRenderDefs

  // --------------------------------------------------------- underwater flag

  /** Mark entries `lo .. hi` exist and name existing surfaces. */
  predicate RangeOk(nsurfaces: nat, marks: seq<int>, lo: nat, hi: nat)
  {
    forall j :: lo <= j < hi ==> j < |marks| && 0 <= marks[j] < nsurfaces
  }

  /**
   * The leaf's surfaces can be flagged: an empty leaf is skipped; any other
   * leaf's mark entries are read and the surfaces they name are written.
   */
  predicate LeafMarksOk(nsurfaces: nat, marks: seq<int>, leaf: Leaf)
  {
    leaf.contents != CONTENTS_EMPTY ==>
      RangeOk(nsurfaces, marks, leaf.firstmarksurface, leaf.firstmarksurface + leaf.nummarksurfaces)
  }

  /** The surfaces mark entries `lo .. hi` name. */
  function RangeMarks(marks: seq<int>, lo: nat, hi: nat): set<int>
  {
    set k | lo <= k < hi && k < |marks| :: marks[k]
  }

  lemma RangeMarksStep(marks: seq<int>, lo: nat, hi: nat)
    requires lo < hi && lo < |marks|
    ensures RangeMarks(marks, lo, hi) == {marks[lo]} + RangeMarks(marks, lo + 1, hi)
  {
  }

  /** The surfaces a leaf marks underwater. */
  function LeafMarked(marks: seq<int>, leaf: Leaf): set<int>
  {
    if leaf.contents == CONTENTS_EMPTY then {}
    else RangeMarks(marks, leaf.firstmarksurface, leaf.firstmarksurface + leaf.nummarksurfaces)
  }

  /** The surfaces some leaf marks underwater. */
  function Marked(marks: seq<int>, leafs: seq<Leaf>): set<int>
  {
    if |leafs| == 0 then {} else LeafMarked(marks, leafs[0]) + Marked(marks, leafs[1..])
  }

  /** The surface with the underwater bit added when `on`. */
  function Flag(surface: Surface, on: bool): (r: Surface)
    ensures r.flags & SURF_UNDERWATER == (if on then SURF_UNDERWATER else surface.flags & SURF_UNDERWATER)
    ensures r.flags & !SURF_UNDERWATER == surface.flags & !SURF_UNDERWATER
    ensures r == surface.(flags := r.flags)
  {
    if on then surface.(flags := surface.flags | SURF_UNDERWATER) else surface
  }

  lemma FlagTwice(surface: Surface, a: bool, b: bool)
    ensures Flag(Flag(surface, a), b) == Flag(surface, a || b)
  {
    var f := surface.flags;
    assert (f | SURF_UNDERWATER) | SURF_UNDERWATER == f | SURF_UNDERWATER;
  }

  /** The surfaces with the underwater bit added to those in `marked`. */
  function Underwater(surfaces: seq<Surface>, marked: set<int>): (r: seq<Surface>)
    ensures |r| == |surfaces|
    ensures forall s :: 0 <= s < |r| ==> r[s] == Flag(surfaces[s], s in marked)
  {
    seq(|surfaces|, s requires 0 <= s < |surfaces| => Flag(surfaces[s], s in marked))
  }

  /** Sets the underwater bit on the surfaces named by mark entries `j .. hi`, one at a time. */
  function FlagRange(surfaces: seq<Surface>, marks: seq<int>, j: nat, hi: nat): (r: Outcome<seq<Surface>>)
    ensures r.Done? ==> |r.value| == |surfaces|
    decreases hi - j
  {
    if j >= hi then Done(surfaces)
    else if j >= |marks| || !(0 <= marks[j] < |surfaces|) then Crashed
    else
      var s := marks[j];
      FlagRange(surfaces[s := Flag(surfaces[s], true)], marks, j + 1, hi)
  }

  /** The underwater pass of `Mod_LoadLeafs`, leaf by leaf in file order. */
  function SpreadUnderwater(surfaces: seq<Surface>, marks: seq<int>, leafs: seq<Leaf>): (r: Outcome<seq<Surface>>)
    ensures r.Done? ==> |r.value| == |surfaces|
    decreases |leafs|
  {
    if |leafs| == 0 then Done(surfaces)
    else
      var leaf := leafs[0];
      var flagged :- if leaf.contents == CONTENTS_EMPTY then Done(surfaces)
                     else FlagRange(surfaces, marks, leaf.firstmarksurface, leaf.firstmarksurface + leaf.nummarksurfaces);
      SpreadUnderwater(flagged, marks, leafs[1..])
  }

  /** Adding the bit for one set and then another adds it for their union. */
  lemma UnderwaterUnion(surfaces: seq<Surface>, a: set<int>, b: set<int>)
    ensures Underwater(Underwater(surfaces, a), b) == Underwater(surfaces, a + b)
  {
    var l := Underwater(Underwater(surfaces, a), b);
    var r := Underwater(surfaces, a + b);
    forall s | 0 <= s < |surfaces| ensures l[s] == r[s] {
      FlagTwice(surfaces[s], s in a, s in b);
    }
  }

  lemma UnderwaterOne(surfaces: seq<Surface>, s: nat)
    requires s < |surfaces|
    ensures surfaces[s := Flag(surfaces[s], true)] == Underwater(surfaces, {s})
  {
  }

  /** Flagging entries `j .. hi` one by one completes exactly when they all name existing surfaces. */
  lemma {:induction false} FlagRangeDone(surfaces: seq<Surface>, marks: seq<int>, j: nat, hi: nat)
    ensures FlagRange(surfaces, marks, j, hi).Done? <==> RangeOk(|surfaces|, marks, j, hi)
    decreases hi - j
  {
    if j < hi && j < |marks| && 0 <= marks[j] < |surfaces| {
      var s := marks[j];
      var next := surfaces[s := Flag(surfaces[s], true)];
      FlagRangeDone(next, marks, j + 1, hi);
      assert RangeOk(|surfaces|, marks, j, hi) <==> RangeOk(|next|, marks, j + 1, hi);
    }
  }

  /** Flagging entries `j .. hi` one by one adds the bit to exactly the surfaces they name. */
  lemma {:induction false} FlagRangeMarks(surfaces: seq<Surface>, marks: seq<int>, j: nat, hi: nat)
    requires FlagRange(surfaces, marks, j, hi).Done?
    ensures FlagRange(surfaces, marks, j, hi).value == Underwater(surfaces, RangeMarks(marks, j, hi))
    decreases hi - j
  {
    if j >= hi {
      assert RangeMarks(marks, j, hi) == {};
      assert Underwater(surfaces, {}) == surfaces;
    } else {
      var s := marks[j];
      var next := surfaces[s := Flag(surfaces[s], true)];
      FlagRangeMarks(next, marks, j + 1, hi);
      UnderwaterOne(surfaces, s);
      UnderwaterUnion(surfaces, {s}, RangeMarks(marks, j + 1, hi));
      RangeMarksStep(marks, j, hi);
    }
  }

  /** Every leaf's surfaces can be flagged. */
  predicate AllLeafMarksOk(nsurfaces: nat, marks: seq<int>, leafs: seq<Leaf>)
  {
    forall i :: 0 <= i < |leafs| ==> LeafMarksOk(nsurfaces, marks, leafs[i])
  }

  lemma AllLeafMarksOkStep(nsurfaces: nat, marks: seq<int>, leafs: seq<Leaf>)
    requires |leafs| > 0
    ensures AllLeafMarksOk(nsurfaces, marks, leafs) <==>
      LeafMarksOk(nsurfaces, marks, leafs[0]) && AllLeafMarksOk(nsurfaces, marks, leafs[1..])
  {
    assert forall i :: 1 <= i < |leafs| ==> leafs[i] == leafs[1..][i - 1];
  }

  /**
   * The leaf-by-leaf pass completes exactly when every non-empty leaf's mark
   * entries are in range, and then it has added the underwater bit to exactly
   * the surfaces some non-empty leaf marks.
   */
  lemma {:induction false} SpreadUnderwaterMarks(surfaces: seq<Surface>, marks: seq<int>, leafs: seq<Leaf>)
    ensures SpreadUnderwater(surfaces, marks, leafs).Done? <==> AllLeafMarksOk(|surfaces|, marks, leafs)
    ensures SpreadUnderwater(surfaces, marks, leafs).Done? ==>
      SpreadUnderwater(surfaces, marks, leafs).value == Underwater(surfaces, Marked(marks, leafs))
    decreases |leafs|
  {
    if |leafs| == 0 {
      assert Underwater(surfaces, {}) == surfaces;
    } else {
      var leaf := leafs[0];
      var rest := leafs[1..];
      AllLeafMarksOkStep(|surfaces|, marks, leafs);
      if leaf.contents == CONTENTS_EMPTY {
        SpreadUnderwaterMarks(surfaces, marks, rest);
        assert LeafMarked(marks, leaf) == {};
      } else {
        var lo := leaf.firstmarksurface;
        var hi := lo + leaf.nummarksurfaces;
        FlagRangeDone(surfaces, marks, lo, hi);
        var flagged := FlagRange(surfaces, marks, lo, hi);
        if flagged.Done? {
          FlagRangeMarks(surfaces, marks, lo, hi);
          SpreadUnderwaterMarks(flagged.value, marks, rest);
          UnderwaterUnion(surfaces, LeafMarked(marks, leaf), Marked(marks, rest));
        }
      }
    }
  }

  // ------------------------------------------------------------ parent links

  /** Every node has two child slots. */
  predicate Shaped(nodes: seq<Node>)
  {
    forall i :: 0 <= i < |nodes| ==> |nodes[i].children| == 2
  }

  /** The node or leaf a child slot points at exists. */
  predicate InRange(nodes: seq<Node>, leafs: seq<Leaf>, c: Child)
  {
    match c
    case NodeChild(n) => n < |nodes|
    case LeafChild(l) => l < |leafs|
  }

  /** The `contents` field read through a child pointer (nodes and leaves share its position). */
  function ContentsOf(nodes: seq<Node>, leafs: seq<Leaf>, c: Child): int
    requires InRange(nodes, leafs, c)
  {
    match c
    case NodeChild(n) => nodes[n].contents
    case LeafChild(l) => leafs[l].contents
  }

  /** Parent links: a node or leaf that is absent has none written; `None` is a null parent. */
  type Links = map<Child, Option<nat>>

  /**
   * `Mod_SetParent(c, parent)`: writes the parent link, then stops at negative
   * contents and otherwise recurses into both children. A leaf with non-negative
   * contents would be read as a node. `budget` is the number of nodes the current
   * path may still descend through; a path through more than all of the nodes
   * repeats one, and the source then recurses forever.
   */
  function Descend(nodes: seq<Node>, leafs: seq<Leaf>, c: Child, parent: Option<nat>, links: Links, budget: nat): (r: Outcome<Links>)
    requires Shaped(nodes)
    ensures r.Done? ==> c in r.value && links.Keys <= r.value.Keys
    decreases budget
  {
    if !InRange(nodes, leafs, c) then Crashed
    else
      var links1 := links[c := parent];
      if ContentsOf(nodes, leafs, c) < 0 then Done(links1)
      else if c.LeafChild? || budget == 0 then Crashed
      else
        var n := c.node;
        var links2 :- Descend(nodes, leafs, nodes[n].children[0], Some(n), links1, budget - 1);
        Descend(nodes, leafs, nodes[n].children[1], Some(n), links2, budget - 1)
  }

  /** `Mod_SetParent(pModel->nodes, NULL)`: the walk from node 0. */
  function SetParent(nodes: seq<Node>, leafs: seq<Leaf>): (r: Outcome<Links>)
    requires Shaped(nodes)
    ensures |nodes| == 0 ==> r.Crashed?
    ensures r.Done? ==> NodeChild(0) in r.value
  {
    Descend(nodes, leafs, NodeChild(0), None, map[], |nodes|)
  }

  /** Every parent link names a node that has the linked node or leaf as a child. */
  predicate LinksAreChildren(nodes: seq<Node>, links: Links)
  {
    forall x :: x in links && links[x].Some? ==>
      links[x].value < |nodes| && x in nodes[links[x].value].children
  }

  /** Only node 0 has a null parent. */
  predicate NullOnlyAtRoot(links: Links)
  {
    forall x :: x in links && links[x].None? ==> x == NodeChild(0)
  }

  /** Every linked node with non-negative contents, outside `pending`, has both children linked. */
  predicate Closed(nodes: seq<Node>, links: Links, pending: set<nat>)
    requires Shaped(nodes)
  {
    forall n :: 0 <= n < |nodes| && NodeChild(n) in links && nodes[n].contents >= 0 && n !in pending ==>
      nodes[n].children[0] in links && nodes[n].children[1] in links
  }

  lemma {:induction false} DescendInvariants(
    nodes: seq<Node>, leafs: seq<Leaf>, c: Child, parent: Option<nat>, links: Links, budget: nat, pending: set<nat>)
    requires Shaped(nodes)
    requires LinksAreChildren(nodes, links) && NullOnlyAtRoot(links) && Closed(nodes, links, pending)
    requires parent.Some? ==> parent.value < |nodes| && c in nodes[parent.value].children
    requires parent.None? ==> c == NodeChild(0)
    ensures Descend(nodes, leafs, c, parent, links, budget).Done? ==>
      var links' := Descend(nodes, leafs, c, parent, links, budget).value;
      LinksAreChildren(nodes, links') && NullOnlyAtRoot(links') && Closed(nodes, links', pending)
    decreases budget
  {
    var d := Descend(nodes, leafs, c, parent, links, budget);
    if InRange(nodes, leafs, c) {
      var links1 := links[c := parent];
      assert LinksAreChildren(nodes, links1) && NullOnlyAtRoot(links1);
      if ContentsOf(nodes, leafs, c) < 0 {
        assert d == Done(links1);
        assert Closed(nodes, links1, pending);
      } else if c.NodeChild? && budget > 0 {
        var n := c.node;
        var b, p := budget - 1, pending + {n};
        var c0, c1 := nodes[n].children[0], nodes[n].children[1];
        assert Closed(nodes, links1, p);
        var r2 := Descend(nodes, leafs, c0, Some(n), links1, b);
        DescendInvariants(nodes, leafs, c0, Some(n), links1, b, p);
        if r2.Done? {
          var r3 := Descend(nodes, leafs, c1, Some(n), r2.value, b);
          DescendInvariants(nodes, leafs, c1, Some(n), r2.value, b, p);
          assert d == r3;
          if r3.Done? {
            CloseNode(nodes, r3.value, pending, n);
          }
        } else {
          assert !d.Done?;
        }
      } else {
        assert d == Crashed;
      }
    } else {
      assert d == Crashed;
    }
  }

  /** A node whose two children are linked leaves the pending set without breaking closure. */
  lemma CloseNode(nodes: seq<Node>, links: Links, pending: set<nat>, n: nat)
    requires Shaped(nodes) && n < |nodes| && Closed(nodes, links, pending + {n})
    requires nodes[n].children[0] in links && nodes[n].children[1] in links
    ensures Closed(nodes, links, pending)
  {
  }

  /**
   * After a completed `Mod_SetParent(nodes, NULL)`: node 0 is linked, every
   * parent link names a node that has the linked node or leaf as a child, only
   * node 0 may have a null parent, and every linked node with non-negative
   * contents has both children linked (descent stops only at negative contents).
   */
  lemma SetParentLinks(nodes: seq<Node>, leafs: seq<Leaf>)
    requires Shaped(nodes) && SetParent(nodes, leafs).Done?
    ensures var links := SetParent(nodes, leafs).value;
      NodeChild(0) in links && LinksAreChildren(nodes, links) && NullOnlyAtRoot(links)
      && Closed(nodes, links, {})
  {
    DescendInvariants(nodes, leafs, NodeChild(0), None, map[], |nodes|, {});
  }

  /** No node has node 0 as a child, and no node or leaf is the child of two slots. */
  predicate IsTree(nodes: seq<Node>)
    requires Shaped(nodes)
  {
    (forall i, a :: 0 <= i < |nodes| && 0 <= a < 2 ==> nodes[i].children[a] != NodeChild(0))
    && forall i, j, a, b ::
         (0 <= i < |nodes| && 0 <= j < |nodes| && 0 <= a < 2 && 0 <= b < 2
          && nodes[i].children[a] == nodes[j].children[b]) ==> i == j && a == b
  }

  /**
   * On a tree, node 0's parent is null and each node the walk descends through
   * is the parent of both of its children.
   */
  lemma SetParentOnTree(nodes: seq<Node>, leafs: seq<Leaf>)
    requires Shaped(nodes) && IsTree(nodes) && SetParent(nodes, leafs).Done?
    ensures var links := SetParent(nodes, leafs).value;
      links[NodeChild(0)] == None
      && forall n, a :: 0 <= n < |nodes| && NodeChild(n) in links && nodes[n].contents >= 0 && 0 <= a < 2 ==>
        nodes[n].children[a] in links && links[nodes[n].children[a]] == Some(n)
  {
    var links := SetParent(nodes, leafs).value;
    SetParentLinks(nodes, leafs);
    forall n, a | 0 <= n < |nodes| && NodeChild(n) in links && nodes[n].contents >= 0 && 0 <= a < 2
      ensures nodes[n].children[a] in links && links[nodes[n].children[a]] == Some(n)
    {
      var x := nodes[n].children[a];
      assert x in links;
      assert x != NodeChild(0);
      var p := links[x].value;
      assert x in nodes[p].children;
      var b :| 0 <= b < 2 && nodes[p].children[b] == x;
    }
  }

  /**
   * A rank for each node that drops from a node with non-negative contents to
   * each child node with non-negative contents: the nodes the walk descends
   * through form no cycle.
   */
  predicate Ranked(nodes: seq<Node>, leafs: seq<Leaf>, rank: seq<nat>)
    requires Shaped(nodes)
  {
    |rank| == |nodes|
    && (forall i :: 0 <= i < |nodes| ==> rank[i] < |nodes|)
    && forall i, a :: 0 <= i < |nodes| && 0 <= a < 2 && nodes[i].contents >= 0 ==>
      var c := nodes[i].children[a];
      InRange(nodes, leafs, c)
      && (c.LeafChild? ==> leafs[c.leaf].contents < 0)
      && (c.NodeChild? && nodes[c.node].contents >= 0 ==> rank[c.node] < rank[i])
  }

  lemma {:induction false} DescendRankedCompletes(
    nodes: seq<Node>, leafs: seq<Leaf>, rank: seq<nat>, c: Child, parent: Option<nat>, links: Links, budget: nat)
    requires Shaped(nodes) && Ranked(nodes, leafs, rank) && InRange(nodes, leafs, c)
    requires c.LeafChild? ==> leafs[c.leaf].contents < 0
    requires c.NodeChild? && nodes[c.node].contents >= 0 ==> rank[c.node] < budget
    ensures Descend(nodes, leafs, c, parent, links, budget).Done?
    decreases budget
  {
    if ContentsOf(nodes, leafs, c) >= 0 {
      var n := c.node;
      var links1 := links[c := parent];
      assert nodes[n].contents >= 0;
      DescendRankedCompletes(nodes, leafs, rank, nodes[n].children[0], Some(n), links1, budget - 1);
      var links2 := Descend(nodes, leafs, nodes[n].children[0], Some(n), links1, budget - 1).value;
      DescendRankedCompletes(nodes, leafs, rank, nodes[n].children[1], Some(n), links2, budget - 1);
    }
  }

  /** On a non-empty ranked tree whose reachable leaves have negative contents, the walk completes. */
  lemma SetParentCompletes(nodes: seq<Node>, leafs: seq<Leaf>, rank: seq<nat>)
    requires Shaped(nodes) && Ranked(nodes, leafs, rank) && |nodes| > 0
    ensures SetParent(nodes, leafs).Done?
  {
    DescendRankedCompletes(nodes, leafs, rank, NodeChild(0), None, map[], |nodes|);
  }

  // ------------------------------------------------------------------ hull 0

  /**
   * A clip-node child of hull 0: the contents of a child with negative contents,
   * otherwise the child node's index. A child outside its array, or a leaf with
   * non-negative contents (whose distance from the node array is taken), crashes.
   */
  function Hull0Child(nodes: seq<Node>, leafs: seq<Leaf>, c: Child): (r: Outcome<int>)
    ensures r.Done? <==> InRange(nodes, leafs, c) && (c.LeafChild? ==> ContentsOf(nodes, leafs, c) < 0)
    ensures r.Done? && ContentsOf(nodes, leafs, c) < 0 ==> r.value == ContentsOf(nodes, leafs, c)
    ensures r.Done? && ContentsOf(nodes, leafs, c) >= 0 ==> r.value >= 0 && c == NodeChild(r.value)
  {
    if !InRange(nodes, leafs, c) then Crashed
    else if ContentsOf(nodes, leafs, c) < 0 then Done(ContentsOf(nodes, leafs, c))
    else match c
      case NodeChild(n) => Done(n)
      case LeafChild(_) => Crashed
  }

  /** Every child of every node can be turned into a hull-0 child. */
  predicate Hull0Ok(nodes: seq<Node>, leafs: seq<Leaf>)
    requires Shaped(nodes)
  {
    forall i, a :: 0 <= i < |nodes| && 0 <= a < 2 ==> Hull0Child(nodes, leafs, nodes[i].children[a]).Done?
  }

  /**
   * `Mod_MakeHull0`: hull 0 takes one clip node per drawing node, with the
   * node's plane and its children converted by `Hull0Child`; its clip bounds are
   * left as they were.
   */
  function MakeHull0(nodes: seq<Node>, leafs: seq<Leaf>, prior: Hull): (r: Outcome<Hull>)
    requires Shaped(nodes)
    ensures r.Done? <==> Hull0Ok(nodes, leafs)
    ensures r.Done? ==>
      |r.value.clipnodes| == |nodes| && r.value.firstclipnode == 0 && r.value.lastclipnode == |nodes| - 1
      && r.value.clipMins == prior.clipMins && r.value.clipMaxs == prior.clipMaxs
    ensures r.Done? ==> forall i :: 0 <= i < |nodes| ==>
      r.value.clipnodes[i].planenum == nodes[i].plane
      && |r.value.clipnodes[i].children| == 2
      && forall a :: 0 <= a < 2 ==>
        Done(r.value.clipnodes[i].children[a]) == Hull0Child(nodes, leafs, nodes[i].children[a])
  {
    if !Hull0Ok(nodes, leafs) then Crashed
    else
      var clip := seq(|nodes|, i requires 0 <= i < |nodes| =>
        ClipNode(nodes[i].plane, [Hull0Child(nodes, leafs, nodes[i].children[0]).value,
                                  Hull0Child(nodes, leafs, nodes[i].children[1]).value]));
      Done(prior.(clipnodes := clip, firstclipnode := 0, lastclipnode := |nodes| - 1))
  }

  /**
   * Hull 0 keeps the tree: when every node has contents 0, a clip-node child is
   * non-negative exactly when the drawing child is a node, it is then that node's
   * index, and otherwise it is the leaf's (negative) contents.
   */
  lemma Hull0FollowsTree(nodes: seq<Node>, leafs: seq<Leaf>, prior: Hull, i: nat, a: nat)
    requires Shaped(nodes) && MakeHull0(nodes, leafs, prior).Done?
    requires forall n :: 0 <= n < |nodes| ==> nodes[n].contents == 0
    requires i < |nodes| && a < 2
    ensures var v := MakeHull0(nodes, leafs, prior).value.clipnodes[i].children[a];
      (v >= 0 <==> nodes[i].children[a].NodeChild?)
      && (v >= 0 ==> nodes[i].children[a] == NodeChild(v))
      && (v < 0 ==> v == leafs[nodes[i].children[a].leaf].contents)
  {
    assert Hull0Child(nodes, leafs, nodes[i].children[a]).Done?;
  }
}
