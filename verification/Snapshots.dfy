/**
 * Capturing the trees of all workspaces into one shared pane list
 * (texel/snapshot.go:296-334, 714-736) and rebuilding them
 * (texel/snapshot_restore.go:76-100, 259-312).
 */
module Snapshots {
  import opened Prelude
  import opened Ratios
  import opened PaneTree
  import opened Layout
  import opened Navigation
  import opened TreeHeap

  /** TreeNodeCapture: a leaf refers to a pane by its position in the shared list. */
  datatype Capture = Capture(paneIndex: int, split: SplitType, ratios: seq<real>, children: seq<Capture>)

  /** What buildTreeCapture makes of a tree. */
  function Captured(t: Shape, index: map<Pane, int>): Capture {
    match t
    case Leaf(_, p) => Capture(if p in index then index[p] else -1, Horizontal, [], [])
    case Branch(_, split, ratios, kids) =>
      Capture(-1, split, ratios, seq(|kids|, i requires 0 <= i < |kids| => Captured(kids[i], index)))
  }

  /** index gives each pane of the list its position. */
  ghost predicate Indexes(panes: seq<Pane>, index: map<Pane, int>) {
    && (forall p | p in index :: 0 <= index[p] < |panes| && panes[index[p]] == p)
    && (forall i | 0 <= i < |panes| :: panes[i] in index && index[panes[i]] == i)
  }

  // ----------------------------------------------------------------- capture

  /** A list and its index that only grew. */
  ghost predicate Extends(panes: seq<Pane>, index: map<Pane, int>, panes': seq<Pane>, index': map<Pane, int>) {
    && Indexes(panes', index') && panes <= panes'
    && forall p | p in index :: p in index' && index'[p] == index[p]
  }

  /** Give a pane the next position, unless it has one. */
  method AddPane(pane: Pane, panes: seq<Pane>, index: map<Pane, int>)
    returns (panes': seq<Pane>, index': map<Pane, int>)
    requires Indexes(panes, index)
    ensures Extends(panes, index, panes', index') && index'.Keys == index.Keys + {pane}
  {
    panes', index' := panes, index;
    if pane !in index' {
      index' := index'[pane := |panes'|];
      panes' := panes' + [pane];
    }
  }

  lemma ExtendsTwice(panes: seq<Pane>, index: map<Pane, int>, panes': seq<Pane>, index': map<Pane, int>,
                     panes'': seq<Pane>, index'': map<Pane, int>)
    requires Extends(panes, index, panes', index') && Extends(panes', index', panes'', index'')
    ensures Extends(panes, index, panes'', index'')
  {
  }

  /** The fields of the root of t. */
  lemma {:induction false} RootFields(t: Shape, up: Node?)
    requires Rep(t, up) && WellFormed(t)
    ensures t.Leaf? ==> t.node.children == [] && t.node.pane == t.pane && Panes(t) == {t.pane}
    ensures t.Branch? ==> t.node.pane == null && t.node.split == t.split && t.node.ratios == t.ratios
    ensures t.Branch? ==> |t.node.children| == |t.kids| >= 2 && FirstPanes(t, 0) == {}
    ensures t.Branch? ==> forall i :: 0 <= i < |t.kids| ==>
      t.node.children[i] == t.kids[i].node && Rep(t.kids[i], t.node) && WellFormed(t.kids[i])
  {
  }

  /** collect (texel/snapshot.go:302-323): append the panes not listed yet, left to right. */
  method Collect(node: Node, panes: seq<Pane>, index: map<Pane, int>, ghost t: Shape, ghost up: Node?)
    returns (panes': seq<Pane>, index': map<Pane, int>)
    requires t.node == node && Rep(t, up) && WellFormed(t) && Indexes(panes, index)
    ensures Extends(panes, index, panes', index') && index'.Keys == index.Keys + Panes(t)
    decreases t
  {
    hide Rep, WellFormed, Nodes, Panes, FirstPanes, Extends;
    RootFields(t, up);
    assert Extends(panes, index, panes, index) by { ExtendsSelf(panes, index); }
    panes', index' := panes, index;
    if |node.children| == 0 {
      if node.pane != null { panes', index' := AddPane(node.pane, panes', index'); }
      return;
    }
    for i := 0 to |node.children|
      invariant Rep(t, up) && Extends(panes, index, panes', index')
      invariant index'.Keys == index.Keys + FirstPanes(t, i)
    {
      RootFields(t, up);
      assert allocated(Nodes(t));
      FirstPanesNext(t, i);
      ExtendsIndexes(panes, index, panes', index');
      ghost var ps, ix := panes', index';
      label Visit:
      panes', index' := Collect(node.children[i], panes', index', t.kids[i], node);
      assert old@Visit(Rep(t, up)) == Rep(t, up);
      ExtendsTwice(panes, index, ps, ix, panes', index');
    }
    RootFields(t, up);
    FirstPanesAll(t);
  }

  lemma ExtendsSelf(panes: seq<Pane>, index: map<Pane, int>)
    requires Indexes(panes, index)
    ensures Extends(panes, index, panes, index)
  {
  }

  lemma ExtendsIndexes(panes: seq<Pane>, index: map<Pane, int>, panes': seq<Pane>, index': map<Pane, int>)
    requires Extends(panes, index, panes', index')
    ensures Indexes(panes', index')
  {
  }

  lemma {:induction false} FirstPanesNext(t: Shape, i: nat)
    requires t.Branch? && i < |t.kids|
    ensures FirstPanes(t, i + 1) == FirstPanes(t, i) + Panes(t.kids[i])
  {
  }

  lemma {:induction false} FirstPanesAll(t: Shape)
    requires t.Branch?
    ensures FirstPanes(t, |t.kids|) == Panes(t)
  {
  }

  /** buildTreeCapture (texel/snapshot.go:714-736). */
  method BuildTreeCapture(node: Node, index: map<Pane, int>, ghost t: Shape, ghost up: Node?) returns (c: Capture)
    requires t.node == node && Rep(t, up) && WellFormed(t)
    ensures c == Captured(t, index)
    decreases t
  {
    if |node.children| == 0 {
      var idx := -1;
      if node.pane != null && node.pane in index { idx := index[node.pane]; }
      return Capture(idx, Horizontal, [], []);
    }
    var children := [];
    for i := 0 to |node.children|
      invariant Rep(t, up) && |children| == i
      invariant forall j :: 0 <= j < i ==> children[j] == Captured(t.kids[j], index)
    {
      assert allocated(Nodes(t)) && Rep(t.kids[i], node);
      var child := BuildTreeCapture(node.children[i], index, t.kids[i], node);
      children := children + [child];
    }
    c := Capture(-1, node.split, node.ratios, children);
  }

  ghost function AllNodes(ts: seq<Shape>): set<Node> {
    set i, n | 0 <= i < |ts| && n in Nodes(ts[i]) :: n
  }

  /** All workspaces of a desktop: their roots and shapes, in whatever order they are visited. */
  ghost predicate Desktop(roots: seq<Node>, ts: seq<Shape>)
    reads AllNodes(ts)
  {
    |roots| == |ts| && forall i :: 0 <= i < |ts| ==> ts[i].node == roots[i] && WellFormed(ts[i]) && Rep(ts[i], null)
  }

  lemma {:induction false} CapturedGrows(t: Shape, index: map<Pane, int>, index': map<Pane, int>)
    requires forall p | p in Panes(t) :: p in index && p in index' && index'[p] == index[p]
    ensures Captured(t, index') == Captured(t, index)
  {
    if t.Branch? {
      forall i | 0 <= i < |t.kids| ensures Captured(t.kids[i], index') == Captured(t.kids[i], index) {
        CapturedGrows(t.kids[i], index, index');
      }
    }
  }

  /** CaptureTree (texel/snapshot.go:329-334): one pane list for all workspaces. */
  method CaptureAll(roots: seq<Node>, ghost ts: seq<Shape>)
    returns (captures: seq<Capture>, panes: seq<Pane>, index: map<Pane, int>)
    requires Desktop(roots, ts)
    ensures |captures| == |ts| && Indexes(panes, index)
    ensures forall i :: 0 <= i < |ts| ==> captures[i] == Captured(ts[i], index) && Panes(ts[i]) <= index.Keys
  {
    captures, panes, index := [], [], map[];
    for k := 0 to |roots|
      invariant Desktop(roots, ts) && |captures| == k && Indexes(panes, index)
      invariant forall i :: 0 <= i < k ==> captures[i] == Captured(ts[i], index) && Panes(ts[i]) <= index.Keys
    {
      ghost var before := index;
      assert allocated(AllNodes(ts));
      label Visit:
      panes, index := Collect(roots[k], panes, index, ts[k], null);
      assert old@Visit(Desktop(roots, ts)) == Desktop(roots, ts);
      var c := BuildTreeCapture(roots[k], index, ts[k], null);
      assert old@Visit(Desktop(roots, ts)) == Desktop(roots, ts);
      forall i | 0 <= i < k ensures captures[i] == Captured(ts[i], index) {
        CapturedGrows(ts[i], before, index);
      }
      captures := captures + [c];
    }
  }

  // ----------------------------------------------------------------- restore

  /** t' has the capture's form, with panes taken from the restored list. */
  ghost predicate Restored(t': Shape, c: Capture, panes: seq<Pane>) {
    if c.children == [] then
      t'.Leaf? && (0 <= c.paneIndex < |panes| ==> t'.pane == panes[c.paneIndex])
    else
      && t'.Branch? && t'.split == c.split && |t'.kids| == |c.children|
      && t'.ratios == (if |c.ratios| == |c.children| then c.ratios else Equal(|c.children|))
      && forall i :: 0 <= i < |t'.kids| ==> Restored(t'.kids[i], c.children[i], panes)
  }

  /** t' is t with other nodes, and the pane restored in place of each pane. */
  ghost predicate Mirrors(t: Shape, t': Shape, index: map<Pane, int>, panes: seq<Pane>) {
    match t
    case Leaf(_, p) => t'.Leaf? && p in index && 0 <= index[p] < |panes| && t'.pane == panes[index[p]]
    case Branch(_, split, ratios, kids) =>
      && t'.Branch? && t'.split == split && t'.ratios == ratios && |t'.kids| == |kids|
      && forall i :: 0 <= i < |kids| ==> Mirrors(kids[i], t'.kids[i], index, panes)
  }

  /** Restoring a capture mirrors the captured tree. */
  lemma {:induction false} RestoredMirrors(t: Shape, t': Shape, index: map<Pane, int>, panes: seq<Pane>)
    requires WellFormed(t) && Panes(t) <= index.Keys
    requires forall p | p in index :: 0 <= index[p] < |panes|
    requires Restored(t', Captured(t, index), panes)
    ensures Mirrors(t, t', index, panes)
  {
    if t.Branch? {
      forall i | 0 <= i < |t.kids| ensures Mirrors(t.kids[i], t'.kids[i], index, panes) {
        assert Panes(t.kids[i]) <= Panes(t);
        assert Captured(t, index).children[i] == Captured(t.kids[i], index);
        RestoredMirrors(t.kids[i], t'.kids[i], index, panes);
      }
    }
  }

  /** A mirror has the same paths and, over any area, the same rectangles. */
  lemma {:induction false} MirrorLayout(t: Shape, t': Shape, index: map<Pane, int>, panes: seq<Pane>, p: Path, r: Rect)
    requires WellFormed(t) && WellFormed(t') && Mirrors(t, t', index, panes)
    ensures HasPath(t', p) <==> HasPath(t, p)
    ensures HasPath(t, p) ==> RectAt(t', p, r) == RectAt(t, p, r) && Mirrors(At(t, p), At(t', p), index, panes)
  {
    if p != [] && t.Branch? && p[0] < |t.kids| {
      MirrorLayout(t.kids[p[0]], t'.kids[p[0]], index, panes, p[1..], ChildRect(t.split, t.ratios, r, p[0]));
    }
  }

  lemma {:induction false} MirrorWellFormed(t: Shape, t': Shape, index: map<Pane, int>, panes: seq<Pane>)
    requires WellFormed(t) && Mirrors(t, t', index, panes)
    ensures WellFormed(t') && FirstLeaf(t') == FirstLeaf(t)
  {
    if t.Branch? {
      forall i | 0 <= i < |t.kids| ensures WellFormed(t'.kids[i]) && FirstLeaf(t'.kids[i]) == FirstLeaf(t.kids[i]) {
        MirrorWellFormed(t.kids[i], t'.kids[i], index, panes);
      }
    }
  }

  /** A mirror's panes are the restored counterparts of the original's. */
  lemma {:induction false} MirrorPanes(t: Shape, t': Shape, index: map<Pane, int>, panes: seq<Pane>, q: Pane)
    returns (p: Pane)
    requires Mirrors(t, t', index, panes) && q in Panes(t')
    ensures p in Panes(t) && p in index && 0 <= index[p] < |panes| && q == panes[index[p]]
  {
    match t
    case Leaf(_, o) => p := o;
    case Branch(_, _, _, kids) =>
      var i :| 0 <= i < |t'.kids| && q in Panes(t'.kids[i]);
      p := MirrorPanes(kids[i], t'.kids[i], index, panes, q);
  }

  /** Trees without common panes are mirrored by trees without common panes. */
  lemma {:induction false} MirrorsApart(a: Shape, a': Shape, b: Shape, b': Shape, all: seq<Pane>,
                                        index: map<Pane, int>, panes: seq<Pane>)
    requires Mirrors(a, a', index, panes) && Mirrors(b, b', index, panes)
    requires Panes(a) !! Panes(b) && Indexes(all, index) && Different(panes)
    ensures Panes(a') !! Panes(b')
  {
    forall q | q in Panes(a') ensures q !in Panes(b') {
      if q in Panes(b') {
        var x := MirrorPanes(a, a', index, panes, q);
        var y := MirrorPanes(b, b', index, panes, q);
      }
    }
  }

  /** No node occurs twice. */
  ghost predicate NodesApart(t: Shape) {
    t.Branch? ==>
      && (forall i :: 0 <= i < |t.kids| ==> t.node !in Nodes(t.kids[i]) && NodesApart(t.kids[i]))
      && (forall i, j :: 0 <= i < j < |t.kids| ==> Nodes(t.kids[i]) !! Nodes(t.kids[j]))
  }

  /** A mirror of a tree without sharing, built of distinct nodes, has no sharing. */
  lemma {:induction false} MirrorDistinct(t: Shape, t': Shape, all: seq<Pane>, index: map<Pane, int>, panes: seq<Pane>)
    requires Distinct(t) && Mirrors(t, t', index, panes) && NodesApart(t')
    requires Indexes(all, index) && Different(panes)
    ensures Distinct(t')
  {
    if t.Branch? {
      forall i | 0 <= i < |t.kids| ensures Distinct(t'.kids[i]) {
        MirrorDistinct(t.kids[i], t'.kids[i], all, index, panes);
      }
      forall i, j | 0 <= i < j < |t.kids| ensures Apart(t'.kids[i], t'.kids[j]) {
        assert Apart(t.kids[i], t.kids[j]);
        MirrorsApart(t.kids[i], t'.kids[i], t.kids[j], t'.kids[j], all, index, panes);
      }
    }
  }

  /** A freshly built subtree is hung from its parent. */
  method Hang(child: Node, node: Node, ghost s: Shape)
    requires s.node == child && Rep(s, null) && NodesApart(s)
    modifies child`parent
    ensures Rep(s, node)
  {
    hide Rep, RepIn, Nodes, NodesApart;
    assert allocated(Nodes(s));
    ghost var ns := Nodes(s);
    RepIsRepIn(s, null, ns);
    ghost var m := Contents(ns);
    RootIn(s);
    child.parent := node;
    HungRep(s, node, m, Contents(ns));
    RepIsRepIn(s, node, ns);
  }

  lemma {:induction false} RootIn(s: Shape)
    ensures s.node in Nodes(s)
  {
  }

  lemma {:induction false} HungRep(s: Shape, up: Node, m: map<Node, Fields>, m': map<Node, Fields>)
    requires NodesApart(s) && RepIn(s, null, m)
    requires Rewritten(Nodes(s), s.node, m[s.node].(parent := up), m, m')
    ensures RepIn(s, up, m')
  {
    if s.Branch? {
      forall i | 0 <= i < |s.kids| ensures RepIn(s.kids[i], s.node, m') {
        assert Agree(Nodes(s.kids[i]), m, m');
        RepAgree(s.kids[i], s.node, m, m');
      }
    }
  }

  /** Subtrees built so far: separate, and all hanging from up. */
  ghost predicate Hanging(ts: seq<Shape>, up: Node)
    reads AllNodes(ts)
  {
    && up !in AllNodes(ts)
    && (forall i :: 0 <= i < |ts| ==> Rep(ts[i], up) && NodesApart(ts[i]))
    && (forall i, j :: 0 <= i < j < |ts| ==> Nodes(ts[i]) !! Nodes(ts[j]))
  }

  lemma {:induction false} HangNext(ts: seq<Shape>, up: Node, s: Shape)
    requires Hanging(ts, up) && Rep(s, up) && NodesApart(s) && up !in Nodes(s) && Nodes(s) !! AllNodes(ts)
    ensures Hanging(ts + [s], up) && AllNodes(ts + [s]) == AllNodes(ts) + Nodes(s)
  {
    var us := ts + [s];
    assert us[|ts|] == s;
    assert AllNodes(us) == AllNodes(ts) + Nodes(s) by {
      forall n | n in AllNodes(ts) ensures n in AllNodes(us) {
        var i :| 0 <= i < |ts| && n in Nodes(ts[i]);
        assert us[i] == ts[i];
      }
    }
  }

  /** The finished group. */
  lemma {:induction false} HangingGroup(ts: seq<Shape>, node: Node, split: SplitType, ratios: seq<real>)
    requires Hanging(ts, node) && node.parent == null && node.pane == null
    requires node.split == split && node.ratios == ratios && node.children == KidNodes(ts)
    ensures var t := Branch(node, split, ratios, ts);
      Rep(t, null) && NodesApart(t) && Nodes(t) == {node} + AllNodes(ts)
  {
  }

  /** The ratios of a restored group; a capture with a wrong count gets equal ones. */
  function RestoredRatios(c: Capture): seq<real>
    requires c.children != []
  {
    if |c.ratios| == |c.children| then c.ratios else Equal(|c.children|)
  }

  /** buildNodesFromCapture (texel/snapshot_restore.go:259-312). */
  method BuildNodes(c: Capture, panes: seq<Pane>) returns (node: Node, first: Node, ghost t: Shape)
    ensures fresh(Nodes(t)) && t.node == node && Rep(t, null) && NodesApart(t)
    ensures Restored(t, c, panes)
    ensures LeafPath(t, FirstLeaf(t)) && first == At(t, FirstLeaf(t)).node
    decreases c, 1
  {
    hide Rep, Nodes, NodesApart, FirstLeaf, Restored, Hanging, AllNodes;
    node := new Node(null, null);
    if |c.children| == 0 {
      var pane: Pane;
      if c.paneIndex < 0 || c.paneIndex >= |panes| {
        pane := new Pane();
      } else {
        pane := panes[c.paneIndex];
      }
      node.pane := pane;
      first := node;
      t := Leaf(node, pane);
      RestoredLeaf(t, c, panes);
      return;
    }
    node.split := c.split;
    node.ratios := if |c.ratios| == |c.children| then c.ratios else Equal(|c.children|);
    ghost var ts;
    first, ts := BuildChildren(node, c, panes);
    t := Branch(node, c.split, RestoredRatios(c), ts);
    HangingGroup(ts, node, c.split, RestoredRatios(c));
    RestoredGroup(t, c, panes);
    GroupFirstLeaf(t);
  }

  lemma {:induction false} RestoredLeaf(t: Shape, c: Capture, panes: seq<Pane>)
    requires t.Leaf? && c.children == [] && (0 <= c.paneIndex < |panes| ==> t.pane == panes[c.paneIndex])
    requires t.node.parent == null && t.node.pane == t.pane && t.node.children == []
    ensures Restored(t, c, panes) && Rep(t, null) && NodesApart(t) && Nodes(t) == {t.node}
    ensures LeafPath(t, FirstLeaf(t)) && At(t, FirstLeaf(t)) == t
  {
  }

  lemma {:induction false} RestoredGroup(t: Shape, c: Capture, panes: seq<Pane>)
    requires t.Branch? && c.children != [] && t.split == c.split && t.ratios == RestoredRatios(c)
    requires |t.kids| == |c.children| && forall i :: 0 <= i < |t.kids| ==> Restored(t.kids[i], c.children[i], panes)
    ensures Restored(t, c, panes)
  {
  }

  lemma {:induction false} GroupFirstLeaf(t: Shape)
    requires t.Branch? && t.kids != [] && LeafPath(t.kids[0], FirstLeaf(t.kids[0]))
    ensures LeafPath(t, FirstLeaf(t)) && At(t, FirstLeaf(t)) == At(t.kids[0], FirstLeaf(t.kids[0]))
  {
    assert FirstLeaf(t)[1..] == FirstLeaf(t.kids[0]);
  }

  /** The loop over a capture's children. */
  method BuildChildren(node: Node, c: Capture, panes: seq<Pane>) returns (first: Node, ghost ts: seq<Shape>)
    requires c.children != [] && node.children == []
    modifies node`children
    ensures fresh(AllNodes(ts)) && Hanging(ts, node) && node.children == KidNodes(ts) && |ts| == |c.children|
    ensures forall i :: 0 <= i < |ts| ==> Restored(ts[i], c.children[i], panes)
    ensures LeafPath(ts[0], FirstLeaf(ts[0])) && first == At(ts[0], FirstLeaf(ts[0])).node
    decreases c, 0
  {
    hide Rep, Nodes, NodesApart, FirstLeaf, Restored, Hanging, AllNodes;
    first := node;
    ts := [];
    NothingHangs(node);
    for i := 0 to |c.children|
      invariant |ts| == i && node.children == KidNodes(ts)
      invariant fresh(AllNodes(ts)) && Hanging(ts, node)
      invariant forall j :: 0 <= j < i ==> Restored(ts[j], c.children[j], panes)
      invariant i > 0 ==> LeafPath(ts[0], FirstLeaf(ts[0])) && first == At(ts[0], FirstLeaf(ts[0])).node
    {
      assert allocated(AllNodes(ts));
      label Visit:
      var childNode, leaf, s := BuildNodes(c.children[i], panes);
      assert old@Visit(Hanging(ts, node)) == Hanging(ts, node);
      assert Nodes(s) !! AllNodes(ts);
      RootIn(s);
      label Built:
      Hang(childNode, node, s);
      assert old@Built(Hanging(ts, node)) == Hanging(ts, node);
      HangNext(ts, node, s);
      assert allocated(AllNodes(ts + [s]));
      label Hung:
      node.children := node.children + [childNode];
      if i == 0 { first := leaf; }
      ts := ts + [s];
      assert old@Hung(Hanging(ts, node)) == Hanging(ts, node);
    }
  }

  lemma NothingHangs(node: Node)
    ensures Hanging([], node) && AllNodes([]) == {}
  {
  }

  /** tree is a sound tree of shape t', laid out over area, that mirrors t. */
  ghost predicate RestoredAs(tree: Tree, t: Shape, t': Shape, index: map<Pane, int>, panes: seq<Pane>, area: Rect)
    reads tree, Nodes(t'), Panes(t')
  {
    && tree.view == Some(View(t', FirstLeaf(t))) && tree.Valid() && Mirrors(t, t', index, panes)
    && WellFormed(t') && Laid(t', area)
  }

  /**
   * Restoring a captured workspace (texel/snapshot_restore.go:76-93): the tree
   * has the captured shape, its panes are the restored ones in their places,
   * focus is on its first leaf and it is laid out over the workspace's area.
   */
  method RestoreWorkspace(c: Capture, panes: seq<Pane>, area: Rect,
                          ghost t: Shape, ghost all: seq<Pane>, ghost index: map<Pane, int>)
    returns (tree: Tree, ghost t': Shape)
    requires c == Captured(t, index) && WellFormed(t) && Distinct(t) && Panes(t) <= index.Keys
    requires Indexes(all, index) && |all| <= |panes| && Different(panes) && area.Proper()
    modifies set p | p in panes
    ensures fresh(tree) && fresh(Nodes(t')) && RestoredAs(tree, t, t', index, panes, area)
    ensures forall p | p in panes && p !in Panes(t') :: unchanged(p)
    ensures forall p | p in panes :: p.isActive == old(p.isActive)
  {
    hide Rep, Nodes, Panes, NodesApart, FirstLeaf, Restored, Mirrors, Captured, WellFormed, Distinct, At, HasPath, Laid;
    var root, active;
    root, active, t' := BuildNodes(c, panes);
    RestoredMirrors(t, t', index, panes);
    MirrorWellFormed(t, t', index, panes);
    MirrorDistinct(t, t', all, index, panes);
    MirrorListed(t, t', index, panes);
    assert allocated(Nodes(t'));
    label Built:
    tree := new Tree.NewTree();
    assert old@Built(Rep(t', null)) == Rep(t', null);
    tree.Adopt(root, active, View(t', FirstLeaf(t')));
    label Adopted:
    ResizeNode(root, area.x, area.y, area.w, area.h, t', null);
    assert old@Adopted(tree.Valid()) == tree.Valid();
  }

  lemma {:induction false} MirrorListed(t: Shape, t': Shape, index: map<Pane, int>, panes: seq<Pane>)
    requires Mirrors(t, t', index, panes)
    ensures forall q | q in Panes(t') :: q in panes
  {
    forall q | q in Panes(t') ensures q in panes { var p := MirrorPanes(t, t', index, panes, q); }
  }

  /** The captures of a desktop's workspaces, which share no pane, in one list. */
  ghost predicate Listed(captures: seq<Capture>, ts: seq<Shape>, index: map<Pane, int>) {
    && |captures| == |ts|
    && (forall i :: 0 <= i < |ts| ==>
          captures[i] == Captured(ts[i], index) && WellFormed(ts[i]) && Distinct(ts[i]) && Panes(ts[i]) <= index.Keys)
    && (forall i, j :: 0 <= i < j < |ts| ==> Panes(ts[i]) !! Panes(ts[j]))
  }

  /** Each workspace of a list is restored, and no two share a node or a pane. */
  ghost predicate AllRestored(trees: seq<Tree>, ts: seq<Shape>, ts': seq<Shape>, index: map<Pane, int>,
                              panes: seq<Pane>, areas: seq<Rect>)
    reads trees, AllNodes(ts'), AllPanes(ts')
  {
    && |trees| == |ts'| <= |ts| && |trees| <= |areas|
    && (forall i :: 0 <= i < |trees| ==> RestoredAs(trees[i], ts[i], ts'[i], index, panes, areas[i]))
    && (forall i, j :: 0 <= i < j < |trees| ==> trees[i] != trees[j] && Apart(ts'[i], ts'[j]))
  }

  ghost function AllPanes(ts: seq<Shape>): set<Pane> {
    set i, p | 0 <= i < |ts| && p in Panes(ts[i]) :: p
  }

  /** The loop of ApplyTreeCapture over the workspaces (texel/snapshot_restore.go:60-100), in any order. */
  method RestoreAll(captures: seq<Capture>, panes: seq<Pane>, areas: seq<Rect>,
                    ghost ts: seq<Shape>, ghost all: seq<Pane>, ghost index: map<Pane, int>)
    returns (trees: seq<Tree>, ghost ts': seq<Shape>)
    requires Listed(captures, ts, index) && |areas| == |ts| && forall i :: 0 <= i < |areas| ==> areas[i].Proper()
    requires Indexes(all, index) && |all| <= |panes| && Different(panes)
    modifies set p | p in panes
    ensures |trees| == |ts| && AllRestored(trees, ts, ts', index, panes, areas)
    ensures fresh(AllNodes(ts')) && forall i :: 0 <= i < |trees| ==> fresh(trees[i])
  {
    hide Nodes, Panes, Captured, WellFormed, Distinct, Mirrors, RestoredAs, FirstLeaf, Laid, AllNodes, AllPanes;
    trees, ts' := [], [];
    NothingAmong();
    for k := 0 to |captures|
      invariant |trees| == k && AllRestored(trees, ts, ts', index, panes, areas)
      invariant fresh(AllNodes(ts')) && (forall i :: 0 <= i < k ==> fresh(trees[i]))
    {
      assert allocated(AllNodes(ts')) && allocated(AllPanes(ts'));
      ghost var before := ts';
      forall i | 0 <= i < k
        ensures Mirrors(ts[i], before[i], index, panes) && forall q | q in Panes(before[i]) :: q in panes
      {
        MirrorOf(trees[i], ts[i], before[i], index, panes, areas[i]);
      }
      label Before:
      var tree, t' := RestoreWorkspace(captures[k], panes, areas[k], ts[k], all, index);
      MirrorOf(tree, ts[k], t', index, panes, areas[k]);
      forall i | 0 <= i < k
        ensures RestoredAs(trees[i], ts[i], before[i], index, panes, areas[i])
        ensures Apart(before[i], t') && trees[i] != tree
      {
        Among(before, i);
        assert old@Before(RestoredAs(trees[i], ts[i], before[i], index, panes, areas[i]));
        MirrorsApart(ts[i], before[i], ts[k], t', all, index, panes);
      }
      trees, ts' := trees + [tree], before + [t'];
      AmongNext(before, t');
    }
  }

  /** The panes made for a capture's pane snapshots (texel/snapshot_restore.go:26-45). */
  method MakePanes(n: nat) returns (panes: seq<Pane>)
    ensures |panes| == n && Different(panes) && forall i :: 0 <= i < n ==> fresh(panes[i])
  {
    panes := [];
    for i := 0 to n
      invariant |panes| == i && Different(panes) && forall j :: 0 <= j < i ==> fresh(panes[j])
    {
      var p := new Pane();
      panes := panes + [p];
    }
  }

  /**
   * Capturing a whole desktop and rebuilding it: every workspace comes back as
   * a sound tree of its own shape, splits and ratios over its area, with a new
   * pane for each pane, and no two workspaces share a node or a pane.
   */
  method CaptureAndRestore(roots: seq<Node>, areas: seq<Rect>, ghost ts: seq<Shape>)
    returns (trees: seq<Tree>, ghost ts': seq<Shape>, ghost index: map<Pane, int>, ghost panes: seq<Pane>)
    requires Desktop(roots, ts) && |areas| == |ts| && forall i :: 0 <= i < |areas| ==> areas[i].Proper()
    requires forall i :: 0 <= i < |ts| ==> Distinct(ts[i])
    requires forall i, j :: 0 <= i < j < |ts| ==> Panes(ts[i]) !! Panes(ts[j])
    ensures |trees| == |ts| && AllRestored(trees, ts, ts', index, panes, areas)
    ensures Different(panes) && (forall i :: 0 <= i < |panes| ==> fresh(panes[i])) && fresh(AllNodes(ts'))
    ensures forall i :: 0 <= i < |ts| ==> Panes(ts[i]) <= index.Keys
    ensures Desktop(roots, ts)
  {
    hide Nodes, Panes, Captured, WellFormed, Distinct, Mirrors, RestoredAs, FirstLeaf, AllNodes, AllPanes, Rep,
      AllRestored;
    assert allocated(AllNodes(ts));
    label Start:
    var captures, list, index' := CaptureAll(roots, ts);
    index := index';
    var made := MakePanes(|list|);
    panes := made;
    trees, ts' := RestoreAll(captures, made, areas, ts, list, index);
    assert old@Start(Desktop(roots, ts)) == Desktop(roots, ts);
  }

  lemma {:induction false} MirrorOf(tree: Tree, t: Shape, t': Shape, index: map<Pane, int>, panes: seq<Pane>,
                                    area: Rect)
    requires RestoredAs(tree, t, t', index, panes, area)
    ensures Mirrors(t, t', index, panes) && forall q | q in Panes(t') :: q in panes
  {
    MirrorListed(t, t', index, panes);
  }

  lemma {:induction false} NothingAmong()
    ensures AllNodes([]) == {} && AllPanes([]) == {}
  {
  }

  lemma {:induction false} Among(ts: seq<Shape>, i: nat)
    requires i < |ts|
    ensures Nodes(ts[i]) <= AllNodes(ts) && Panes(ts[i]) <= AllPanes(ts)
  {
  }

  lemma {:induction false} AmongNext(ts: seq<Shape>, t: Shape)
    ensures AllNodes(ts + [t]) == AllNodes(ts) + Nodes(t) && AllPanes(ts + [t]) == AllPanes(ts) + Panes(t)
  {
    var all := ts + [t];
    assert all[|ts|] == t && forall i :: 0 <= i < |ts| ==> all[i] == ts[i];
  }
}
