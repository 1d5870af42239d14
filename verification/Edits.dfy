/**
 * The edits of the pane tree as functions of its shape and focus, what each
 * does to the left-to-right order of panes, and the invariant they all keep.
 */
module Edits {
  import opened Ratios
  import opened PaneTree
  import opened Navigation

  function Init(p: Path): Path
    requires p != []
  {
    p[..|p| - 1]
  }

  function Last(p: Path): nat
    requires p != []
  {
    p[|p| - 1]
  }

  // ------------------------------------------------------------------- split

  /** Equal up to the source's 0.001, measured from the first. */
  predicate RatiosEqual(rs: seq<real>) {
    forall i :: 1 <= i < |rs| ==> Abs(rs[i] - rs[0]) <= 0.001
  }

  /** The new pane joins the group of the leaf at f instead of splitting it. */
  predicate Joins(t: Shape, f: Path, dir: SplitType)
    requires HasPath(t, f)
  {
    f != [] && HasPath(t, Init(f)) &&
    var g := At(t, Init(f)); g.Branch? && g.split == dir && RatiosEqual(g.ratios)
  }

  /** New leaves b (and a, for the pane that was there), texel/tree.go:113-158. */
  function Split(t: Shape, f: Path, dir: SplitType, a: Node, b: Node, pane: Pane): Shape
    requires LeafPath(t, f)
  {
    if Joins(t, f, dir) then Join(t, Init(f), b, pane) else Divide(t, f, dir, a, b, pane)
  }

  /** A group with one more leaf, shared equally. */
  function Grown(g: Shape, b: Node, pane: Pane): Shape
    requires g.Branch?
  {
    Branch(g.node, g.split, Equal(|g.kids| + 1), g.kids + [Leaf(b, pane)])
  }

  function Join(t: Shape, q: Path, b: Node, pane: Pane): Shape
    requires HasPath(t, q) && At(t, q).Branch?
  {
    Put(t, q, Grown(At(t, q), b, pane))
  }

  /** A leaf turned into a group of two. */
  function Pair(l: Shape, dir: SplitType, a: Node, b: Node, pane: Pane): Shape
    requires l.Leaf?
  {
    Branch(l.node, dir, [0.5, 0.5], [Leaf(a, l.pane), Leaf(b, pane)])
  }

  function Divide(t: Shape, f: Path, dir: SplitType, a: Node, b: Node, pane: Pane): Shape
    requires LeafPath(t, f)
  {
    Put(t, f, Pair(At(t, f), dir, a, b, pane))
  }

  function SplitFocus(t: Shape, f: Path, dir: SplitType): Path
    requires LeafPath(t, f)
  {
    if Joins(t, f, dir) then Init(f) + [|At(t, Init(f)).kids|] else f + [1]
  }

  // ------------------------------------------------------------------ remove

  /** What is left of the group of the leaf at p (texel/workspace_layout.go:96-163). */
  function Survivors(t: Shape, p: Path): Shape
    requires HasPath(t, p) && p != [] && Spot(t, Init(p), Last(p))
    requires |At(t, Init(p)).ratios| == |At(t, Init(p)).kids|
  {
    var g := At(t, Init(p));
    var kids := Without(g.kids, Last(p));
    if |kids| == 1 then kids[0]
    else Branch(g.node, g.split, Normalised(Without(g.ratios, Last(p))), kids)
  }

  ghost predicate Removable(t: Shape, p: Path) {
    LeafPath(t, p) && p != [] && Spot(t, Init(p), Last(p)) && WellFormed(At(t, Init(p)))
  }

  function Remove(t: Shape, p: Path): Shape
    requires Removable(t, p)
  {
    Put(t, Init(p), Survivors(t, p))
  }

  /** The group of p collapses: one child is left. */
  predicate Collapses(t: Shape, p: Path)
    requires p != [] && HasPath(t, Init(p)) && At(t, Init(p)).Branch?
  {
    |At(t, Init(p)).kids| == 2
  }

  /** Focus after the active leaf p was removed: a first leaf of a survivor. */
  function NextFocus(t: Shape, p: Path): Path
    requires Removable(t, p)
  {
    var q, g := Init(p), At(t, Init(p));
    var kids := Without(g.kids, Last(p));
    if |kids| == 1 then q + FirstLeaf(kids[0])
    else
      var i := if Last(p) < |kids| then Last(p) else |kids| - 1;
      q + [i] + FirstLeaf(kids[i])
  }

  /** Where the leaf at f is found once the leaf at p has been removed. */
  function Moved(t: Shape, p: Path, f: Path): Path
    requires Removable(t, p)
  {
    var q := Init(p);
    if !(q <= f) || |f| == |q| then f
    else if Collapses(t, p) then q + f[|q| + 1..]
    else if f[|q|] > Last(p) then q + [f[|q|] - 1] + f[|q| + 1..]
    else f
  }

  function RemoveFocus(t: Shape, p: Path, f: Path): Path
    requires Removable(t, p)
  {
    if f == p then NextFocus(t, p) else Moved(t, p, f)
  }

  // ------------------------------------------------- swap, ratios, resizing

  function Exchanged(p: Pane, x: Pane, y: Pane): Pane {
    if p == x then y else if p == y then x else p
  }

  /** t with panes x and y exchanged (texel/tree.go:241). */
  function Swap(t: Shape, x: Pane, y: Pane): Shape {
    match t
    case Leaf(n, p) => Leaf(n, Exchanged(p, x, y))
    case Branch(n, split, ratios, kids) =>
      Branch(n, split, ratios, seq(|kids|, i requires 0 <= i < |kids| => Swap(kids[i], x, y)))
  }

  function SetRatios(t: Shape, q: Path, rs: seq<real>): Shape
    requires HasPath(t, q) && At(t, q).Branch?
  {
    Put(t, q, At(t, q).(ratios := rs))
  }

  // ------------------------------------------------------------------ lemmas

  lemma {:induction false} RemovableLeaf(t: Shape, p: Path)
    requires WellFormed(t) && LeafPath(t, p) && p != []
    ensures Removable(t, p)
  {
    PathLast(t, p);
    Inside(t, Init(p));
  }

  lemma {:induction false} GrownLeaves(g: Shape, b: Node, pane: Pane)
    requires g.Branch?
    ensures Leaves(Grown(g, b, pane)) == Leaves(g) + [pane]
  {
    LeavesOfConcat(g.kids, [Leaf(b, pane)]);
    assert [Leaf(b, pane)][1..] == [];
  }

  lemma {:induction false} PairLeaves(l: Shape, dir: SplitType, a: Node, b: Node, pane: Pane)
    requires l.Leaf?
    ensures Leaves(l) == [l.pane] && Leaves(Pair(l, dir, a, b, pane)) == [l.pane, pane]
  {
    var x, y := Leaf(a, l.pane), Leaf(b, pane);
    assert [x, y] == [x] + [y] && [x][1..] == [] && [y][1..] == [];
    LeavesOfConcat([x], [y]);
  }

  /** The split's pane order: next to the old pane, or at the end of its group. */
  lemma {:induction false} SplitLeaves(t: Shape, f: Path, dir: SplitType, a: Node, b: Node, pane: Pane)
    requires LeafPath(t, f)
    ensures !Joins(t, f, dir) ==>
      && Leaves(t) == Before(t, f) + [At(t, f).pane] + After(t, f)
      && Leaves(Split(t, f, dir, a, b, pane)) == Before(t, f) + [At(t, f).pane, pane] + After(t, f)
    ensures Joins(t, f, dir) ==> var q := Init(f);
      && Leaves(t) == Before(t, q) + Leaves(At(t, q)) + After(t, q)
      && Leaves(Split(t, f, dir, a, b, pane)) == Before(t, q) + Leaves(At(t, q)) + [pane] + After(t, q)
  {
    hide HasPath, At, Put, Leaves, Before, After, Grown, Pair;
    if Joins(t, f, dir) {
      PutLeaves(t, Init(f), Grown(At(t, Init(f)), b, pane));
      GrownLeaves(At(t, Init(f)), b, pane);
    } else {
      PutLeaves(t, f, Pair(At(t, f), dir, a, b, pane));
      PairLeaves(At(t, f), dir, a, b, pane);
    }
  }

  lemma {:induction false} BeforeStep(t: Shape, q: Path, i: nat)
    requires Spot(t, q, i) && HasPath(t, q + [i])
    ensures Before(t, q + [i]) == Before(t, q) + LeavesOf(At(t, q).kids[..i])
    ensures After(t, q + [i]) == LeavesOf(At(t, q).kids[i + 1..]) + After(t, q)
  {
    if q == [] {
      assert q + [i] == [i] && [i][1..] == [];
    } else {
      assert (q + [i])[1..] == q[1..] + [i];
      BeforeStep(t.kids[q[0]], q[1..], i);
    }
  }

  lemma {:induction false} SurvivorLeaves(t: Shape, p: Path)
    requires Removable(t, p)
    ensures var g := At(t, Init(p));
      Leaves(Survivors(t, p)) == LeavesOf(g.kids[..Last(p)]) + LeavesOf(g.kids[Last(p) + 1..])
  {
    var g, i := At(t, Init(p)), Last(p);
    LeavesOfConcat(g.kids[..i], g.kids[i + 1..]);
    var kids := Without(g.kids, i);
    if |kids| == 1 { assert kids == [kids[0]] && kids[1..] == []; }
  }

  lemma {:induction false} BeforeLast(t: Shape, p: Path)
    requires HasPath(t, p) && p != [] && Spot(t, Init(p), Last(p))
    ensures Before(t, p) == Before(t, Init(p)) + LeavesOf(At(t, Init(p)).kids[..Last(p)])
    ensures After(t, p) == LeavesOf(At(t, Init(p)).kids[Last(p) + 1..]) + After(t, Init(p))
  {
    assert p == Init(p) + [Last(p)];
    BeforeStep(t, Init(p), Last(p));
  }

  lemma Regroup<X>(a: seq<X>, b: seq<X>, c: seq<X>, d: seq<X>)
    ensures a + (b + c) + d == (a + b) + (c + d)
  {
  }

  lemma {:induction false} AroundLeaf(t: Shape, p: Path)
    requires LeafPath(t, p)
    ensures Leaves(t) == Before(t, p) + [At(t, p).pane] + After(t, p)
  {
    PutLeaves(t, p, At(t, p));
  }

  lemma {:induction false} AroundSurvivors(t: Shape, p: Path)
    requires Removable(t, p)
    ensures var g := At(t, Init(p));
      Leaves(Remove(t, p)) == Before(t, Init(p))
        + (LeavesOf(g.kids[..Last(p)]) + LeavesOf(g.kids[Last(p) + 1..])) + After(t, Init(p))
  {
    PutLeaves(t, Init(p), Survivors(t, p));
    SurvivorLeaves(t, p);
  }

  /** Removal deletes one pane and keeps the order of all others. */
  lemma {:induction false} RemoveLeaves(t: Shape, p: Path)
    requires Removable(t, p)
    ensures Leaves(t) == Before(t, p) + [At(t, p).pane] + After(t, p)
    ensures Leaves(Remove(t, p)) == Before(t, p) + After(t, p)
  {
    hide HasPath, At, Put, Leaves, LeavesOf, Before, After, Survivors, Remove, WellFormed;
    AroundLeaf(t, p);
    AroundSurvivors(t, p);
    var q, i := Init(p), Last(p);
    var b, l, r, c := Before(t, q), LeavesOf(At(t, q).kids[..i]), LeavesOf(At(t, q).kids[i + 1..]), After(t, q);
    BeforeLast(t, p);
    Regroup(b, l, r, c);
  }

  /**
   * The survivors' ratios are the old ones in proportion when these have a
   * positive total, and then fill the group; otherwise they are kept.
   */
  lemma {:induction false} SurvivorRatios(t: Shape, p: Path)
    requires Removable(t, p)
    ensures WellFormed(Survivors(t, p))
    ensures !Collapses(t, p) ==> var left := Without(At(t, Init(p)).ratios, Last(p));
      && Survivors(t, p).Branch? && |Survivors(t, p).ratios| == |left|
      && (Fills(Survivors(t, p).ratios) <==> Sum(left) > 0.0)
      && (if Sum(left) > 0.0
          then forall k :: 0 <= k < |left| ==> Survivors(t, p).ratios[k] * Sum(left) == left[k]
          else Survivors(t, p).ratios == left)
  {
    hide HasPath, At, Sum;
    var g := At(t, Init(p));
    RestFits(g.ratios, Last(p));
    SumWithout(g.ratios, Last(p));
    NormalisedFills(Without(g.ratios, Last(p)));
    SurvivorKids(t, p);
  }

  lemma {:induction false} SurvivorKids(t: Shape, p: Path)
    requires Removable(t, p)
    ensures var kids := Without(At(t, Init(p)).kids, Last(p));
      forall i :: 0 <= i < |kids| ==> WellFormed(kids[i])
  {
  }

  lemma {:induction false} PutFilled(t: Shape, p: Path, s: Shape)
    requires HasPath(t, p) && Filled(t)
    ensures Filled(At(t, p)) && (Filled(Put(t, p, s)) <==> Filled(s))
  {
    if p != [] {
      PutFilled(t.kids[p[0]], p[1..], s);
      var t' := Put(t, p, s);
      assert t'.kids[p[0]] == Put(t.kids[p[0]], p[1..], s);
      forall i | 0 <= i < |t.kids| && i != p[0] ensures t'.kids[i] == t.kids[i] {}
    }
  }

  /** Removing any leaf but the root keeps the tree well-formed. */
  lemma {:induction false} RemoveKeepsForm(t: Shape, p: Path)
    requires WellFormed(t) && LeafPath(t, p) && p != []
    ensures Removable(t, p) && WellFormed(Remove(t, p))
  {
    hide Survivors, HasPath, At, Put;
    RemovableLeaf(t, p);
    SurvivorRatios(t, p);
    PutWellFormed(t, Init(p), Survivors(t, p));
  }

  /**
   * Removing a leaf keeps every group filled exactly when the leaf's group
   * collapses or its other ratios have a positive total.
   */
  lemma {:induction false} RemoveKeepsFilled(t: Shape, p: Path)
    requires WellFormed(t) && Filled(t) && LeafPath(t, p) && p != []
    ensures Removable(t, p)
    ensures Filled(Remove(t, p)) <==>
      Collapses(t, p) || Sum(Without(At(t, Init(p)).ratios, Last(p))) > 0.0
  {
    hide HasPath, At, Put, Sum, Normalised;
    RemovableLeaf(t, p);
    SurvivorRatios(t, p);
    PutFilled(t, Init(p), Survivors(t, p));
    FilledKids(At(t, Init(p)), Last(p));
  }

  lemma {:induction false} FilledKids(g: Shape, i: nat)
    requires g.Branch? && Filled(g) && i < |g.kids|
    ensures forall k :: 0 <= k < |Without(g.kids, i)| ==> Filled(Without(g.kids, i)[k])
  {
  }

  /** The leaf moved is outside the group of the removed one. */
  lemma {:induction false} MovedOutside(t: Shape, p: Path, f: Path)
    requires Removable(t, p) && LeafPath(t, f) && (!(Init(p) <= f) || |f| == |Init(p)|)
    ensures LeafPath(Remove(t, p), f) && At(Remove(t, p), f) == At(t, f)
  {
    var q := Init(p);
    if f <= q {
      assert q == f + q[|f|..];
      PathConcat(t, f, q[|f|..]);
    }
    PutElsewhere(t, q, Survivors(t, p), f);
  }

  /** The leaf moved is below child k of that group. */
  lemma {:induction false} MovedInside(t: Shape, p: Path, k: nat, rest: Path)
    requires Removable(t, p) && k != Last(p)
    requires Spot(t, Init(p), k) && LeafPath(At(t, Init(p)).kids[k], rest)
    ensures var f' := if Collapses(t, p) then Init(p) + rest
                      else Init(p) + [if k > Last(p) then k - 1 else k] + rest;
      LeafPath(Remove(t, p), f') && At(Remove(t, p), f') == At(At(t, Init(p)).kids[k], rest)
  {
    var q, s, t' := Init(p), Survivors(t, p), Remove(t, p);
    PutAt(t, q, s);
    if Collapses(t, p) {
      PathConcat(t', q, rest);
    } else {
      var k' := if k > Last(p) then k - 1 else k;
      PathStep(t', q, k');
      PathConcat(t', q + [k'], rest);
    }
  }

  /** A leaf that stays is found at its moved path. */
  lemma {:induction false} MovedFinds(t: Shape, p: Path, f: Path)
    requires Removable(t, p) && LeafPath(t, f) && f != p
    ensures LeafPath(Remove(t, p), Moved(t, p, f)) && At(Remove(t, p), Moved(t, p, f)) == At(t, f)
  {
    var q, i := Init(p), Last(p);
    if !(q <= f) || |f| == |q| {
      MovedOutside(t, p, f);
    } else {
      var k, rest := f[|q|], f[|q| + 1..];
      assert f == q + [k] + rest;
      PathConcat(t, q + [k], rest);
      PathConcat(t, q, [k]);
      PathStep(t, q, k);
      assert p == q + [i];
      MovedInside(t, p, k, rest);
    }
  }

  lemma {:induction false} NextFocusIsLeaf(t: Shape, p: Path)
    requires Removable(t, p)
    ensures LeafPath(Remove(t, p), NextFocus(t, p))
  {
    var q, g, s := Init(p), At(t, Init(p)), Survivors(t, p);
    var kids := Without(g.kids, Last(p));
    PutAt(t, q, s);
    var i := if Last(p) < |kids| then Last(p) else |kids| - 1;
    if |kids| == 1 {
      FirstLeafIsLeaf(kids[0]);
      PathConcat(Remove(t, p), q, FirstLeaf(kids[0]));
    } else {
      FirstLeafIsLeaf(kids[i]);
      PathStep(Remove(t, p), q, i);
      PathConcat(Remove(t, p), q + [i], FirstLeaf(kids[i]));
    }
  }

  // -------------------------------------------------------- what edits keep

  lemma {:induction false} SamePaneSamePath(t: Shape, p: Path, q: Path)
    requires Distinct(t) && LeafPath(t, p) && LeafPath(t, q) && At(t, p).pane == At(t, q).pane
    ensures p == q
  {
    if t.Branch? {
      Inside(t.kids[p[0]], p[1..]);
      Inside(t.kids[q[0]], q[1..]);
      if p[0] != q[0] { KidsApart(t, p[0], q[0]); }
      SamePaneSamePath(t.kids[p[0]], p[1..], q[1..]);
      assert p == [p[0]] + p[1..] && q == [q[0]] + q[1..];
    }
  }

  lemma {:induction false} LeafObjects(l: Shape)
    requires l.Leaf?
    ensures Nodes(l) == {l.node} && Panes(l) == {l.pane}
  {
  }

  lemma {:induction false} GrownKeeps(g: Shape, b: Node, pane: Pane)
    requires g.Branch? && WellFormed(g) && Distinct(g) && b !in Nodes(g) && pane !in Panes(g)
    ensures var s := Grown(g, b, pane);
      && s.Branch? && |s.kids| == |g.kids| + 1 && s.kids[|g.kids|] == Leaf(b, pane) && s.node == g.node
      && WellFormed(s) && Distinct(s)
      && Nodes(s) == Nodes(g) + {b} && Panes(s) == Panes(g) + {pane}
  {
    EqualFills(|g.kids| + 1);
    GroupExtended(g, Leaf(b, pane), Equal(|g.kids| + 1));
  }

  lemma {:induction false} PairKeeps(l: Shape, dir: SplitType, a: Node, b: Node, pane: Pane)
    requires l.Leaf? && a != l.node && b != l.node && a != b && pane != l.pane
    ensures var s := Pair(l, dir, a, b, pane);
      && s.Branch? && |s.kids| == 2 && s.kids[1] == Leaf(b, pane) && s.node == l.node
      && WellFormed(s) && Distinct(s)
      && Nodes(s) == Nodes(l) + {a, b} && Panes(s) == Panes(l) + {pane}
  {
    HalvesFill();
    PairObjects(Pair(l, dir, a, b, pane), Leaf(a, l.pane), Leaf(b, pane));
  }

  lemma {:induction false} JoinKeeps(t: Shape, q: Path, b: Node, pane: Pane)
    requires WellFormed(t) && Distinct(t) && HasPath(t, q) && At(t, q).Branch?
    requires b !in Nodes(t) && pane !in Panes(t)
    ensures var g := At(t, q);
      var t' := Join(t, q, b, pane);
      && WellFormed(t') && Distinct(t')
      && LeafPath(t', q + [|g.kids|]) && At(t', q + [|g.kids|]) == Leaf(b, pane)
      && Nodes(t') == Nodes(t) + {b} && Panes(t') == Panes(t) + {pane}
  {
    hide HasPath, At, Put, WellFormed, Distinct, Nodes, Panes, Grown;
    var g, s := At(t, q), Grown(At(t, q), b, pane);
    Inside(t, q);
    GrownKeeps(g, b, pane);
    PutObjects(t, q, s);
    PutWellFormed(t, q, s);
    PutAt(t, q, s);
    PathStep(Put(t, q, s), q, |g.kids|);
  }

  lemma {:induction false} DivideKeeps(t: Shape, f: Path, dir: SplitType, a: Node, b: Node, pane: Pane)
    requires WellFormed(t) && Distinct(t) && LeafPath(t, f)
    requires a !in Nodes(t) && b !in Nodes(t) && a != b && pane !in Panes(t)
    ensures var t' := Divide(t, f, dir, a, b, pane);
      && WellFormed(t') && Distinct(t')
      && LeafPath(t', f + [1]) && At(t', f + [1]) == Leaf(b, pane)
      && Nodes(t') == Nodes(t) + {a, b} && Panes(t') == Panes(t) + {pane}
  {
    hide HasPath, At, Put, WellFormed, Distinct, Nodes, Panes, Pair;
    var s := Pair(At(t, f), dir, a, b, pane);
    Inside(t, f);
    PairKeeps(At(t, f), dir, a, b, pane);
    LeafObjects(At(t, f));
    PutObjects(t, f, s);
    PutWellFormed(t, f, s);
    PutAt(t, f, s);
    PathStep(Put(t, f, s), f, 1);
  }

  lemma {:induction false} SplitKeeps(t: Shape, f: Path, dir: SplitType, a: Node, b: Node, pane: Pane)
    requires WellFormed(t) && Distinct(t) && LeafPath(t, f)
    requires a !in Nodes(t) && b !in Nodes(t) && a != b && pane !in Panes(t)
    ensures var t' := Split(t, f, dir, a, b, pane);
      && WellFormed(t') && Distinct(t') && LeafPath(t', SplitFocus(t, f, dir))
      && At(t', SplitFocus(t, f, dir)) == Leaf(b, pane)
      && Panes(t') == Panes(t) + {pane}
      && Nodes(t') == Nodes(t) + (if Joins(t, f, dir) then {b} else {a, b})
  {
    if Joins(t, f, dir) {
      JoinKeeps(t, Init(f), b, pane);
    } else {
      DivideKeeps(t, f, dir, a, b, pane);
    }
  }

  lemma HalvesFill()
    ensures Fills([0.5, 0.5])
  {
    assert [0.5, 0.5][..1] == [0.5] && [0.5][..0] == [];
  }

  lemma {:induction false} PairObjects(s: Shape, l: Shape, l': Shape)
    requires s.Branch? && s.kids == [l, l']
    ensures Nodes(s) == {s.node} + Nodes(l) + Nodes(l') && Panes(s) == Panes(l) + Panes(l')
  {
    assert s.kids[0] == l && s.kids[1] == l';
    assert Nodes(s) >= Nodes(s.kids[0]) && Nodes(s) >= Nodes(s.kids[1]);
    assert Panes(s) >= Panes(s.kids[0]) && Panes(s) >= Panes(s.kids[1]);
  }

  /** Children kept under other indices contribute the same objects. */
  lemma {:induction false} KidsWithin(a: Shape, b: Shape)
    requires a.Branch? && b.Branch?
    requires forall i :: 0 <= i < |a.kids| ==> a.kids[i] in b.kids
    ensures Nodes(a) <= Nodes(b) + {a.node} && Panes(a) <= Panes(b)
  {
    forall o | o in Nodes(a) && o != a.node ensures o in Nodes(b) {
      var i :| 0 <= i < |a.kids| && o in Nodes(a.kids[i]);
      var j :| 0 <= j < |b.kids| && a.kids[i] == b.kids[j];
      assert o in Nodes(b.kids[j]);
    }
    forall o | o in Panes(a) ensures o in Panes(b) {
      var i :| 0 <= i < |a.kids| && o in Panes(a.kids[i]);
      var j :| 0 <= j < |b.kids| && a.kids[i] == b.kids[j];
      assert o in Panes(b.kids[j]);
    }
  }

  lemma {:induction false} GroupExtended(g: Shape, l: Shape, rs: seq<real>)
    requires g.Branch? && Distinct(g) && l.Leaf? && l.node !in Nodes(g) && l.pane !in Panes(g)
    ensures var s := Branch(g.node, g.split, rs, g.kids + [l]);
      Distinct(s) && Nodes(s) == Nodes(g) + {l.node} && Panes(s) == Panes(g) + {l.pane}
  {
    hide Nodes, Panes, Distinct;
    var s := Branch(g.node, g.split, rs, g.kids + [l]);
    ExtendedDistinct(g, l, s);
    assert forall i :: 0 <= i < |g.kids| ==> g.kids[i] == s.kids[i];
    KidsWithin(g, s);
    assert s.kids[|g.kids|] == l;
    ExtendedCovers(g, l, s);
    LeafObjects(l);
  }

  lemma {:induction false} ExtendedDistinct(g: Shape, l: Shape, s: Shape)
    requires g.Branch? && Distinct(g) && l.Leaf? && l.node !in Nodes(g) && l.pane !in Panes(g)
    requires s.Branch? && s.node == g.node && s.kids == g.kids + [l]
    ensures Distinct(s) && s.node in Nodes(g) && s.node in Nodes(s)
  {
    forall i | 0 <= i < |g.kids| ensures s.kids[i] == g.kids[i] && Apart(g.kids[i], l) && l.node != g.node {
      assert Nodes(g.kids[i]) <= Nodes(g) && Panes(g.kids[i]) <= Panes(g);
    }
  }

  lemma {:induction false} ExtendedCovers(g: Shape, l: Shape, s: Shape)
    requires g.Branch? && s.Branch? && s.node == g.node && s.kids == g.kids + [l]
    ensures Nodes(l) <= Nodes(s) && Panes(l) <= Panes(s)
    ensures Nodes(s) <= Nodes(g) + Nodes(l) && Panes(s) <= Panes(g) + Panes(l)
  {
    assert s.kids[|g.kids|] == l;
    forall o | o in Nodes(s) && o != s.node ensures o in Nodes(g) + Nodes(l) {
      var i :| 0 <= i < |s.kids| && o in Nodes(s.kids[i]);
    }
    forall o | o in Panes(s) ensures o in Panes(g) + Panes(l) {
      var i :| 0 <= i < |s.kids| && o in Panes(s.kids[i]);
    }
  }

  /** A group without its child i. */
  lemma {:induction false} GroupReduced(g: Shape, i: nat, rs: seq<real>)
    requires g.Branch? && Distinct(g) && i < |g.kids|
    ensures var s := Branch(g.node, g.split, rs, Without(g.kids, i));
      Distinct(s) && Nodes(s) == Nodes(g) - Nodes(g.kids[i]) && Panes(s) == Panes(g) - Panes(g.kids[i])
  {
    hide Nodes, Panes, Distinct, Apart;
    var s := Branch(g.node, g.split, rs, Without(g.kids, i));
    ReducedDistinct(g, i, s);
    forall j | 0 <= j < |s.kids| ensures s.kids[j] in g.kids {
      assert s.kids[j] == g.kids[if j < i then j else j + 1];
    }
    KidsWithin(s, g);
    ReducedApart(g, i, s);
    ReducedCovers(g, i, s);
    KidInside(g, i);
  }

  lemma {:induction false} ReducedDistinct(g: Shape, i: nat, s: Shape)
    requires g.Branch? && Distinct(g) && i < |g.kids|
    requires s.Branch? && s.node == g.node && s.kids == Without(g.kids, i)
    ensures Distinct(s)
  {
    forall j | 0 <= j < |s.kids| ensures g.node !in Nodes(s.kids[j]) && Distinct(s.kids[j]) {
      assert s.kids[j] == g.kids[if j < i then j else j + 1];
    }
    forall j, k | 0 <= j < k < |s.kids| ensures Apart(s.kids[j], s.kids[k]) {
      KidsApart(g, if j < i then j else j + 1, if k < i then k else k + 1);
    }
  }

  lemma {:induction false} ReducedApart(g: Shape, i: nat, s: Shape)
    requires g.Branch? && Distinct(g) && i < |g.kids|
    requires s.Branch? && s.node == g.node && s.kids == Without(g.kids, i)
    ensures Apart(s, g.kids[i]) && s.node in Nodes(s)
    ensures Nodes(s) !! Nodes(g.kids[i]) && Panes(s) !! Panes(g.kids[i])
  {
    forall j | 0 <= j < |s.kids| ensures Apart(s.kids[j], g.kids[i]) {
      KidsApart(g, if j < i then j else j + 1, i);
    }
  }

  lemma {:induction false} ReducedCovers(g: Shape, i: nat, s: Shape)
    requires g.Branch? && i < |g.kids|
    requires s.Branch? && s.node == g.node && s.kids == Without(g.kids, i)
    ensures Nodes(g) <= Nodes(s) + Nodes(g.kids[i]) && Panes(g) <= Panes(s) + Panes(g.kids[i])
  {
    forall o | o in Nodes(g) && o !in Nodes(g.kids[i]) ensures o in Nodes(s) {
      if o != g.node {
        var j :| 0 <= j < |g.kids| && o in Nodes(g.kids[j]);
        assert g.kids[j] == s.kids[if j < i then j else j - 1];
      }
    }
    forall o | o in Panes(g) && o !in Panes(g.kids[i]) ensures o in Panes(s) {
      var j :| 0 <= j < |g.kids| && o in Panes(g.kids[j]);
      assert g.kids[j] == s.kids[if j < i then j else j - 1];
    }
  }

  lemma {:induction false} SurvivorObjects(t: Shape, p: Path)
    requires Removable(t, p) && Distinct(t)
    ensures var g := At(t, Init(p)); var s := Survivors(t, p); var k := g.kids[Last(p)];
      && Distinct(s)
      && Nodes(s) == Nodes(g) - Nodes(k) - (if Collapses(t, p) then {g.node} else {})
      && Panes(s) == Panes(g) - Panes(k)
  {
    var g, i := At(t, Init(p)), Last(p);
    Inside(t, Init(p));
    var rs := Normalised(Without(g.ratios, i));
    GroupReduced(g, i, rs);
    if Collapses(t, p) {
      var s := Branch(g.node, g.split, rs, Without(g.kids, i));
      OnlyChild(s);
      KidsApart(g, i, 1 - i);
    }
  }

  lemma {:induction false} OnlyChild(s: Shape)
    requires s.Branch? && Distinct(s) && |s.kids| == 1
    ensures Nodes(s.kids[0]) == Nodes(s) - {s.node} && Panes(s.kids[0]) == Panes(s) && Distinct(s.kids[0])
  {
  }

  lemma {:induction false} KidInside(g: Shape, i: nat)
    requires g.Branch? && i < |g.kids| && Distinct(g)
    ensures Nodes(g.kids[i]) <= Nodes(g) && Panes(g.kids[i]) <= Panes(g) && g.node in Nodes(g) - Nodes(g.kids[i])
  {
  }

  /** The leaf at p is the only thing a removal takes away. */
  lemma {:induction false} RemoveKeeps(t: Shape, p: Path)
    requires Removable(t, p) && Distinct(t)
    ensures Distinct(Remove(t, p))
    ensures Nodes(Remove(t, p)) ==
      Nodes(t) - {At(t, p).node} - (if Collapses(t, p) then {At(t, Init(p)).node} else {})
    ensures Panes(Remove(t, p)) == Panes(t) - {At(t, p).pane}
  {
    hide HasPath, At, Put, Distinct, Nodes, Panes, Survivors;
    assert p == Init(p) + [Last(p)];
    SurvivorObjects(t, p);
    PathLast(t, p);
    LeafObjects(At(t, p));
    Inside(t, Init(p));
    KidInside(At(t, Init(p)), Last(p));
    PutObjects(t, Init(p), Survivors(t, p));
  }

  lemma {:induction false} SwapNodes(t: Shape, x: Pane, y: Pane)
    ensures Swap(t, x, y).node == t.node && Nodes(Swap(t, x, y)) == Nodes(t)
  {
    if t.Branch? {
      var t' := Swap(t, x, y);
      forall i | 0 <= i < |t.kids| ensures Nodes(t'.kids[i]) == Nodes(t.kids[i]) { SwapNodes(t.kids[i], x, y); }
    }
  }

  lemma {:induction false} SwapPanes(t: Shape, x: Pane, y: Pane, p: Pane)
    ensures p in Panes(Swap(t, x, y)) <==> Exchanged(p, x, y) in Panes(t)
  {
    if t.Branch? {
      var t' := Swap(t, x, y);
      forall i | 0 <= i < |t.kids|
        ensures p in Panes(t'.kids[i]) <==> Exchanged(p, x, y) in Panes(t.kids[i])
      {
        SwapPanes(t.kids[i], x, y, p);
      }
    }
  }

  lemma {:induction false} SwapWellFormed(t: Shape, x: Pane, y: Pane)
    requires WellFormed(t)
    ensures WellFormed(Swap(t, x, y))
  {
    if t.Branch? {
      forall i | 0 <= i < |t.kids| ensures WellFormed(Swap(t, x, y).kids[i]) { SwapWellFormed(t.kids[i], x, y); }
    }
  }

  lemma {:induction false} SwapApart(a: Shape, b: Shape, x: Pane, y: Pane)
    requires Apart(a, b)
    ensures Apart(Swap(a, x, y), Swap(b, x, y))
  {
    SwapNodes(a, x, y);
    SwapNodes(b, x, y);
    forall p | p in Panes(Swap(a, x, y)) ensures p !in Panes(Swap(b, x, y)) {
      SwapPanes(a, x, y, p);
      SwapPanes(b, x, y, p);
    }
  }

  lemma {:induction false} SwapDistinct(t: Shape, x: Pane, y: Pane)
    requires Distinct(t)
    ensures Distinct(Swap(t, x, y))
  {
    if t.Branch? {
      var t' := Swap(t, x, y);
      forall i | 0 <= i < |t.kids| ensures Distinct(t'.kids[i]) && t'.node !in Nodes(t'.kids[i]) {
        SwapDistinct(t.kids[i], x, y);
        SwapNodes(t.kids[i], x, y);
      }
      forall i, j | 0 <= i < j < |t.kids| ensures Apart(t'.kids[i], t'.kids[j]) {
        SwapApart(t.kids[i], t.kids[j], x, y);
      }
    }
  }

  lemma {:induction false} SwapKeeps(t: Shape, x: Pane, y: Pane)
    requires WellFormed(t) && Distinct(t) && x in Panes(t) && y in Panes(t)
    ensures WellFormed(Swap(t, x, y)) && Distinct(Swap(t, x, y))
    ensures Panes(Swap(t, x, y)) == Panes(t) && Nodes(Swap(t, x, y)) == Nodes(t)
  {
    SwapNodes(t, x, y);
    SwapWellFormed(t, x, y);
    SwapDistinct(t, x, y);
    forall p | p in Panes(Swap(t, x, y)) ensures p in Panes(t) { SwapPanes(t, x, y, p); }
    forall p | p in Panes(t) ensures p in Panes(Swap(t, x, y)) { SwapPanes(t, x, y, p); }
  }

  /** Exchanging panes moves no leaf. */
  lemma {:induction false} SwapAt(t: Shape, x: Pane, y: Pane, p: Path)
    ensures HasPath(Swap(t, x, y), p) <==> HasPath(t, p)
    ensures HasPath(t, p) ==> At(Swap(t, x, y), p) == Swap(At(t, p), x, y)
  {
    if p != [] && t.Branch? && p[0] < |t.kids| { SwapAt(t.kids[p[0]], x, y, p[1..]); }
  }

  lemma {:induction false} SwapCrossing(t: Shape, x: Pane, y: Pane, p: Path, d: Direction)
    requires HasPath(t, p) && HasPath(Swap(t, x, y), p)
    ensures Crossing(Swap(t, x, y), p, d) == Crossing(t, p, d)
  {
    if p != [] { SwapCrossing(t.kids[p[0]], x, y, p[1..], d); }
  }

  lemma {:induction false} SwapFirstLeaf(t: Shape, x: Pane, y: Pane)
    ensures FirstLeaf(Swap(t, x, y)) == FirstLeaf(t)
  {
    if t.Branch? && t.kids != [] { SwapFirstLeaf(t.kids[0], x, y); }
  }

  lemma {:induction false} SwapNeighbor(t: Shape, x: Pane, y: Pane, p: Path, d: Direction)
    requires HasPath(t, p) && HasPath(Swap(t, x, y), p)
    ensures Neighbor(Swap(t, x, y), p, d) == Neighbor(t, p, d)
  {
    SwapCrossing(t, x, y, p, d);
    CrossingOnPath(t, p, d);
    if Crossing(t, p, d).Some? {
      var c := Crossing(t, p, d).value;
      SwapAt(t, x, y, c.at);
      SwapFirstLeaf(At(t, c.at).kids[c.to], x, y);
    }
  }

  lemma {:induction false} SetRatiosKeeps(t: Shape, q: Path, rs: seq<real>)
    requires WellFormed(t) && Distinct(t) && HasPath(t, q) && At(t, q).Branch?
    requires |rs| == |At(t, q).kids| && Fits(rs)
    ensures var t' := SetRatios(t, q, rs);
      WellFormed(t') && Distinct(t') && Nodes(t') == Nodes(t) && Panes(t') == Panes(t)
  {
    var s := At(t, q).(ratios := rs);
    Inside(t, q);
    assert Nodes(s) == Nodes(At(t, q)) && Panes(s) == Panes(At(t, q));
    PutObjects(t, q, s);
    PutWellFormed(t, q, s);
  }

  lemma {:induction false} SetSameRatios(t: Shape, q: Path)
    requires HasPath(t, q) && At(t, q).Branch?
    ensures SetRatios(t, q, At(t, q).ratios) == t
  {
    PutSame(t, q);
  }

  /** Only the last of several changes to a group's ratios is seen. */
  lemma {:induction false} SetTwice(t: Shape, q: Path, a: seq<real>, b: seq<real>)
    requires HasPath(t, q) && At(t, q).Branch?
    ensures var t' := SetRatios(t, q, a);
      && HasPath(t', q) && At(t', q) == At(t, q).(ratios := a) && SetRatios(t', q, b) == SetRatios(t, q, b)
  {
    PutAt(t, q, At(t, q).(ratios := a));
    PutTwice(t, q, At(t, q).(ratios := a), At(t, q).(ratios := b));
  }

  /** Changing ratios moves no leaf. */
  lemma {:induction false} SetRatiosAt(t: Shape, q: Path, rs: seq<real>, p: Path)
    requires HasPath(t, q) && At(t, q).Branch? && LeafPath(t, p)
    ensures LeafPath(SetRatios(t, q, rs), p) && At(SetRatios(t, q, rs), p) == At(t, p)
  {
    if q != [] && q[0] == p[0] {
      SetRatiosAt(t.kids[q[0]], q[1..], rs, p[1..]);
    }
  }
}
