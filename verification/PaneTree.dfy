/**
 * The heap of the tiling tree (texel/tree.go) and the value it stands for.
 *
 * A Node carries a parent pointer, a split direction, a ratio per child and
 * its children, or a pane. A Shape is the immutable tree one can read off such
 * a heap: it records every node reference together with what its fields must
 * hold, so Rep(t, parent) says the heap below t.node is exactly t.
 */
module PaneTree {
  import opened Ratios

  datatype SplitType = Horizontal | Vertical

  class Pane {
    var absX0: int
    var absY0: int
    var absX1: int
    var absY1: int
    var isActive: bool

    constructor ()
      ensures !isActive
    {
      absX0, absY0, absX1, absY1, isActive := 0, 0, 0, 0, false;
    }
  }

  class Node {
    var parent: Node?
    var split: SplitType
    var pane: Pane?
    var ratios: seq<real>
    var children: seq<Node>

    constructor (parent: Node?, pane: Pane?)
      ensures this.parent == parent && this.pane == pane
      ensures children == [] && ratios == []
    {
      this.parent, this.pane := parent, pane;
      this.split, this.ratios, this.children := Horizontal, [], [];
    }
  }

  datatype Shape =
    | Leaf(node: Node, pane: Pane)
    | Branch(node: Node, split: SplitType, ratios: seq<real>, kids: seq<Shape>)

  /** A route from a node to a descendant: child indices, outermost first. */
  type Path = seq<nat>

  // ---------------------------------------------------------------- objects

  ghost function Nodes(t: Shape): set<Node> {
    match t
    case Leaf(n, _) => {n}
    case Branch(n, _, _, kids) => {n} + set i, o | 0 <= i < |kids| && o in Nodes(kids[i]) :: o
  }

  ghost function Panes(t: Shape): set<Pane> {
    match t
    case Leaf(_, p) => {p}
    case Branch(_, _, _, kids) => set i, o | 0 <= i < |kids| && o in Panes(kids[i]) :: o
  }

  ghost predicate Apart(a: Shape, b: Shape) {
    Nodes(a) !! Nodes(b) && Panes(a) !! Panes(b)
  }

  /** No node and no pane occurs twice. */
  ghost predicate Distinct(t: Shape) {
    match t
    case Leaf(_, _) => true
    case Branch(n, _, _, kids) =>
      && (forall i :: 0 <= i < |kids| ==> n !in Nodes(kids[i]) && Distinct(kids[i]))
      && (forall i, j :: 0 <= i < j < |kids| ==> Apart(kids[i], kids[j]))
  }

  /** Each split has at least two children and as many ratios, which fit it. */
  ghost predicate WellFormed(t: Shape) {
    match t
    case Leaf(_, _) => true
    case Branch(_, _, ratios, kids) =>
      && |kids| >= 2 && |ratios| == |kids| && Fits(ratios)
      && forall i :: 0 <= i < |kids| ==> WellFormed(kids[i])
  }

  /** The ratios of every split fill it exactly. */
  ghost predicate Filled(t: Shape) {
    match t
    case Leaf(_, _) => true
    case Branch(_, _, ratios, kids) =>
      Fills(ratios) && forall i :: 0 <= i < |kids| ==> Filled(kids[i])
  }

  function KidNodes(kids: seq<Shape>): (ns: seq<Node>)
    ensures |ns| == |kids| && forall i :: 0 <= i < |kids| ==> ns[i] == kids[i].node
  {
    seq(|kids|, i requires 0 <= i < |kids| => kids[i].node)
  }

  /** The heap below t.node is exactly t, hanging from parent. */
  ghost predicate Rep(t: Shape, parent: Node?)
    reads Nodes(t)
  {
    t.node.parent == parent &&
    match t
    case Leaf(n, p) => n.pane == p && n.children == []
    case Branch(n, split, ratios, kids) =>
      && n.pane == null && n.split == split && n.ratios == ratios
      && n.children == KidNodes(kids)
      && forall i :: 0 <= i < |kids| ==> Rep(kids[i], n)
  }

  // ------------------------------------------------------------------ paths

  predicate HasPath(t: Shape, p: Path) {
    p == [] || (t.Branch? && p[0] < |t.kids| && HasPath(t.kids[p[0]], p[1..]))
  }

  function At(t: Shape, p: Path): Shape
    requires HasPath(t, p)
  {
    if p == [] then t else At(t.kids[p[0]], p[1..])
  }

  /** t with the subtree at p replaced by s. */
  function Put(t: Shape, p: Path, s: Shape): Shape
    requires HasPath(t, p)
  {
    if p == [] then s
    else t.(kids := t.kids[p[0] := Put(t.kids[p[0]], p[1..], s)])
  }

  predicate LeafPath(t: Shape, p: Path) {
    HasPath(t, p) && At(t, p).Leaf?
  }

  ghost function ParentOf(t: Shape, p: Path, parent: Node?): Node?
    requires HasPath(t, p)
  {
    if p == [] then parent else ParentOf(t.kids[p[0]], p[1..], t.node)
  }

  lemma {:induction false} PathConcat(t: Shape, p: Path, q: Path)
    ensures HasPath(t, p + q) <==> HasPath(t, p) && HasPath(At(t, p), q)
    ensures HasPath(t, p + q) ==> At(t, p + q) == At(At(t, p), q)
  {
    if p == [] {
      assert p + q == q;
    } else {
      assert (p + q)[1..] == p[1..] + q;
      if t.Branch? && p[0] < |t.kids| { PathConcat(t.kids[p[0]], p[1..], q); }
    }
  }

  /** Taking the last step of a path. */
  lemma {:induction false} PathLast(t: Shape, p: Path)
    requires HasPath(t, p) && p != []
    ensures HasPath(t, p[..|p| - 1]) && At(t, p[..|p| - 1]).Branch?
    ensures p[|p| - 1] < |At(t, p[..|p| - 1]).kids|
    ensures At(t, p) == At(t, p[..|p| - 1]).kids[p[|p| - 1]]
  {
    var q, i := p[..|p| - 1], p[|p| - 1];
    assert p == q + [i];
    PathConcat(t, q, [i]);
    assert [i][1..] == [];
  }

  lemma {:induction false} PathStep(t: Shape, q: Path, i: nat)
    requires HasPath(t, q) && At(t, q).Branch? && i < |At(t, q).kids|
    ensures HasPath(t, q + [i]) && At(t, q + [i]) == At(t, q).kids[i]
  {
    PathConcat(t, q, [i]);
    assert [i][1..] == [];
  }

  lemma {:induction false} PutConcat(t: Shape, p: Path, q: Path, s: Shape)
    requires HasPath(t, p) && HasPath(At(t, p), q) && HasPath(t, p + q)
    ensures Put(t, p + q, s) == Put(t, p, Put(At(t, p), q, s))
  {
    if p == [] {
      assert p + q == q;
    } else {
      assert (p + q)[1..] == p[1..] + q;
      PutConcat(t.kids[p[0]], p[1..], q, s);
    }
  }

  lemma {:induction false} PutAt(t: Shape, p: Path, s: Shape)
    requires HasPath(t, p)
    ensures HasPath(Put(t, p, s), p) && At(Put(t, p, s), p) == s
    ensures p != [] ==> Put(t, p, s).node == t.node
  {
    if p != [] { PutAt(t.kids[p[0]], p[1..], s); }
  }

  lemma {:induction false} PutSame(t: Shape, q: Path)
    requires HasPath(t, q)
    ensures Put(t, q, At(t, q)) == t
  {
    if q != [] { PutSame(t.kids[q[0]], q[1..]); }
  }

  lemma {:induction false} PutTwice(t: Shape, q: Path, x: Shape, y: Shape)
    requires HasPath(t, q)
    ensures HasPath(Put(t, q, x), q) && Put(Put(t, q, x), q, y) == Put(t, q, y)
  {
    if q != [] { PutTwice(t.kids[q[0]], q[1..], x, y); }
  }

  /** Paths that leave the edited subtree aside reach what they reached before. */
  lemma {:induction false} PutElsewhere(t: Shape, p: Path, s: Shape, q: Path)
    requires HasPath(t, p) && HasPath(t, q) && !(p <= q) && !(q <= p)
    ensures HasPath(Put(t, p, s), q) && At(Put(t, p, s), q) == At(t, q)
  {
    if p[0] == q[0] {
      assert p == [p[0]] + p[1..] && q == [q[0]] + q[1..];
      PutElsewhere(t.kids[p[0]], p[1..], s, q[1..]);
    }
  }

  lemma {:induction false} Inside(t: Shape, p: Path)
    requires HasPath(t, p)
    ensures Nodes(At(t, p)) <= Nodes(t) && Panes(At(t, p)) <= Panes(t)
    ensures At(t, p).node in Nodes(t)
    ensures At(t, p).Leaf? ==> At(t, p).pane in Panes(t)
    ensures WellFormed(t) ==> WellFormed(At(t, p))
    ensures Distinct(t) ==> Distinct(At(t, p))
  {
    if p != [] { Inside(t.kids[p[0]], p[1..]); }
  }

  lemma {:induction false} KidsApart(t: Shape, i: nat, j: nat)
    requires t.Branch? && Distinct(t) && i < |t.kids| && j < |t.kids| && i != j
    ensures Apart(t.kids[i], t.kids[j]) && t.node !in Nodes(t.kids[i])
  {
    assert if i < j then Apart(t.kids[i], t.kids[j]) else Apart(t.kids[j], t.kids[i]);
  }

  /** A node is found at one path only. */
  lemma {:induction false} NodeAtOnePath(t: Shape, p: Path, q: Path)
    requires Distinct(t) && HasPath(t, p) && HasPath(t, q)
    ensures At(t, p).node == At(t, q).node <==> p == q
  {
    if p != [] { Inside(t.kids[p[0]], p[1..]); }
    if q != [] { Inside(t.kids[q[0]], q[1..]); }
    if p != [] && q != [] {
      if p[0] != q[0] { KidsApart(t, p[0], q[0]); }
      if p[0] == q[0] { NodeAtOnePath(t.kids[p[0]], p[1..], q[1..]); }
      assert p == [p[0]] + p[1..] && q == [q[0]] + q[1..];
    }
  }

  lemma {:induction false} KidUpdate(t: Shape, i: nat, s: Shape)
    requires t.Branch? && Distinct(t) && i < |t.kids| && Distinct(s)
    requires Nodes(s) !! Nodes(t) - Nodes(t.kids[i])
    requires Panes(s) !! Panes(t) - Panes(t.kids[i])
    ensures Distinct(t.(kids := t.kids[i := s]))
    ensures Nodes(t.(kids := t.kids[i := s])) == Nodes(t) - Nodes(t.kids[i]) + Nodes(s)
    ensures Panes(t.(kids := t.kids[i := s])) == Panes(t) - Panes(t.kids[i]) + Panes(s)
  {
    var t' := t.(kids := t.kids[i := s]);
    assert t'.kids[i] == s;
    forall j | 0 <= j < |t.kids| && j != i
      ensures t'.kids[j] == t.kids[j] && Apart(t.kids[j], t.kids[i]) && Apart(t.kids[j], s)
    {
      KidsApart(t, j, i);
      assert Nodes(t.kids[j]) <= Nodes(t) && Panes(t.kids[j]) <= Panes(t);
    }
    assert t.node in Nodes(t) - Nodes(t.kids[i]);
  }

  /** Replacing a part of a part. */
  lemma Replaced<X>(whole: set<X>, part: set<X>, inner: set<X>, added: set<X>)
    requires inner <= part <= whole && added !! whole - inner
    ensures whole - part + (part - inner + added) == whole - inner + added
    ensures part - inner + added !! whole - part
    ensures added !! part - inner
  {
  }

  /** Replacing a subtree replaces exactly its nodes and panes. */
  lemma {:induction false} PutObjects(t: Shape, p: Path, s: Shape)
    requires HasPath(t, p) && Distinct(t)
    requires Distinct(s)
    requires Nodes(s) !! Nodes(t) - Nodes(At(t, p))
    requires Panes(s) !! Panes(t) - Panes(At(t, p))
    ensures Nodes(Put(t, p, s)) == Nodes(t) - Nodes(At(t, p)) + Nodes(s)
    ensures Panes(Put(t, p, s)) == Panes(t) - Panes(At(t, p)) + Panes(s)
    ensures Distinct(Put(t, p, s))
  {
    if p != [] {
      var k := t.kids[p[0]];
      var k' := Put(k, p[1..], s);
      assert Nodes(k) <= Nodes(t) && Panes(k) <= Panes(t);
      Inside(k, p[1..]);
      Replaced(Nodes(t), Nodes(k), Nodes(At(t, p)), Nodes(s));
      Replaced(Panes(t), Panes(k), Panes(At(t, p)), Panes(s));
      PutObjects(k, p[1..], s);
      KidUpdate(t, p[0], k');
    }
  }

  lemma {:induction false} PutWellFormed(t: Shape, p: Path, s: Shape)
    requires HasPath(t, p) && WellFormed(t) && WellFormed(s)
    ensures WellFormed(Put(t, p, s))
  {
    if p != [] { PutWellFormed(t.kids[p[0]], p[1..], s); }
  }

  // ----------------------------------------------------------- leaf sequence

  /** Panes from left to right. */
  function Leaves(t: Shape): seq<Pane> {
    match t
    case Leaf(_, p) => [p]
    case Branch(_, _, _, kids) => LeavesOf(kids)
  }

  function LeavesOf(kids: seq<Shape>): seq<Pane> {
    if kids == [] then [] else Leaves(kids[0]) + LeavesOf(kids[1..])
  }

  lemma {:induction false} LeavesOfConcat(a: seq<Shape>, b: seq<Shape>)
    ensures LeavesOf(a + b) == LeavesOf(a) + LeavesOf(b)
  {
    if a == [] {
      assert a + b == b;
    } else {
      assert (a + b)[1..] == a[1..] + b;
      LeavesOfConcat(a[1..], b);
    }
  }

  lemma {:induction false} LeavesOfSplit(kids: seq<Shape>, i: nat)
    requires i < |kids|
    ensures LeavesOf(kids) == LeavesOf(kids[..i]) + Leaves(kids[i]) + LeavesOf(kids[i + 1..])
  {
    assert kids == kids[..i] + [kids[i]] + kids[i + 1..];
    LeavesOfConcat(kids[..i] + [kids[i]], kids[i + 1..]);
    LeavesOfConcat(kids[..i], [kids[i]]);
    assert [kids[i]][1..] == [];
  }

  /** Leaves strictly to the left of the subtree at p. */
  function Before(t: Shape, p: Path): seq<Pane>
    requires HasPath(t, p)
  {
    if p == [] then [] else LeavesOf(t.kids[..p[0]]) + Before(t.kids[p[0]], p[1..])
  }

  /** Leaves strictly to the right of the subtree at p. */
  function After(t: Shape, p: Path): seq<Pane>
    requires HasPath(t, p)
  {
    if p == [] then [] else After(t.kids[p[0]], p[1..]) + LeavesOf(t.kids[p[0] + 1..])
  }

  lemma {:induction false} PutKidLeaves(t: Shape, i: nat, k: Shape)
    requires t.Branch? && i < |t.kids|
    ensures Leaves(t.(kids := t.kids[i := k])) == LeavesOf(t.kids[..i]) + Leaves(k) + LeavesOf(t.kids[i + 1..])
  {
    var kids' := t.kids[i := k];
    LeavesOfSplit(kids', i);
    assert kids'[..i] == t.kids[..i] && kids'[i + 1..] == t.kids[i + 1..];
  }

  /** Replacing a subtree replaces its leaves in place. */
  lemma {:induction false} PutLeaves(t: Shape, p: Path, s: Shape)
    requires HasPath(t, p)
    ensures Leaves(t) == Before(t, p) + Leaves(At(t, p)) + After(t, p)
    ensures Leaves(Put(t, p, s)) == Before(t, p) + Leaves(s) + After(t, p)
  {
    hide Leaves, LeavesOf;
    if p != [] {
      var i := p[0];
      PutLeaves(t.kids[i], p[1..], s);
      PutKidLeaves(t, i, t.kids[i]);
      PutKidLeaves(t, i, Put(t.kids[i], p[1..], s));
      assert t.(kids := t.kids[i := t.kids[i]]) == t;
    }
  }

  // ------------------------------------------------------------- heap lemmas

  lemma {:induction false} RepAt(t: Shape, p: Path, parent: Node?)
    requires HasPath(t, p) && Rep(t, parent)
    ensures Nodes(At(t, p)) <= Nodes(t)
    ensures Rep(At(t, p), ParentOf(t, p, parent))
  {
    if p != [] {
      RepAt(t.kids[p[0]], p[1..], t.node);
    }
  }

  /** What a node's fields hold. */
  datatype Fields = Fields(parent: Node?, split: SplitType, pane: Pane?, ratios: seq<real>, children: seq<Node>)

  /** The contents of a set of nodes, as a value that survives later updates. */
  ghost function Contents(s: set<Node>): (m: map<Node, Fields>)
    reads s
    ensures m.Keys == s
  {
    map n | n in s :: Fields(n.parent, n.split, n.pane, n.ratios, n.children)
  }

  /** Rep, over recorded contents. */
  ghost predicate RepIn(t: Shape, parent: Node?, m: map<Node, Fields>) {
    t.node in m && m[t.node].parent == parent &&
    match t
    case Leaf(n, p) => m[n].pane == p && m[n].children == []
    case Branch(n, split, ratios, kids) =>
      && m[n].pane == null && m[n].split == split && m[n].ratios == ratios
      && m[n].children == KidNodes(kids)
      && forall i :: 0 <= i < |kids| ==> RepIn(kids[i], n, m)
  }

  lemma {:induction false} RepIsRepIn(t: Shape, parent: Node?, s: set<Node>)
    requires Nodes(t) <= s
    ensures Rep(t, parent) <==> RepIn(t, parent, Contents(s))
  {
    if t.Branch? {
      forall i | 0 <= i < |t.kids| ensures Rep(t.kids[i], t.node) <==> RepIn(t.kids[i], t.node, Contents(s)) {
        RepIsRepIn(t.kids[i], t.node, s);
      }
    }
  }

  ghost predicate Agree(s: set<Node>, m: map<Node, Fields>, m': map<Node, Fields>) {
    forall n | n in s :: n in m && n in m' && m[n] == m'[n]
  }

  lemma {:induction false} RepAgree(t: Shape, parent: Node?, m: map<Node, Fields>, m': map<Node, Fields>)
    requires RepIn(t, parent, m) && Agree(Nodes(t), m, m')
    ensures RepIn(t, parent, m')
  {
    if t.Branch? {
      forall i | 0 <= i < |t.kids| ensures RepIn(t.kids[i], t.node, m') {
        RepAgree(t.kids[i], t.node, m, m');
      }
    }
  }

  /** Rewriting the heap below one node, and nothing else, is a Put. */
  lemma {:induction false} RepPut(t: Shape, p: Path, s: Shape, parent: Node?,
                                  m: map<Node, Fields>, m': map<Node, Fields>)
    requires HasPath(t, p) && Distinct(t)
    requires RepIn(t, parent, m)
    requires p != [] ==> s.node == At(t, p).node
    requires RepIn(s, ParentOf(t, p, parent), m')
    requires Agree(Nodes(t) - Nodes(At(t, p)), m, m')
    ensures RepIn(Put(t, p, s), parent, m')
  {
    if p != [] {
      var k := t.kids[p[0]];
      Inside(k, p[1..]);
      RepPut(k, p[1..], s, t.node, m, m');
      if p[1..] != [] { PutAt(k, p[1..], s); }
      forall i | 0 <= i < |t.kids| && i != p[0]
        ensures RepIn(t.kids[i], t.node, m')
      {
        KidsApart(t, i, p[0]);
        RepAgree(t.kids[i], t.node, m, m');
      }
      assert KidNodes(Put(t, p, s).kids) == KidNodes(t.kids);
    }
  }
}
