/**
 * One workspace as a state machine, and the invariant of its runs.
 *
 * A state is a tree, the path of its active leaf, the border being dragged and
 * the area; a run is any sequence of splits, removals, focus moves, swaps,
 * keyboard and mouse resizes, animation frames and area changes.
 */
module Runs {
  import opened Prelude
  import opened Ratios
  import opened PaneTree
  import opened Layout
  import opened Navigation
  import opened Edits
  import opened Borders
  import opened TreeHeap
  import opened BorderHeap
  import opened RemoveHeap

  /** A border: the path of its group and the index of the child before it. */
  datatype Grip = Grip(at: Path, index: nat)

  /** The fields of a group a key press reads. */
  datatype Divider = Divider(split: SplitType, ratios: seq<real>)

  /**
   * `selection` is the border the keyboard resizes, held across key presses;
   * `detached` is what is left of its group once that is out of the tree.
   */
  datatype State = State(view: View, area: Rect, grip: Option<Grip>, selection: Option<Border>,
                         detached: Option<Divider>)

  datatype Op =
    | SplitOp(dir: SplitType, first: Node, second: Node, pane: Pane)
    | RemoveOp(leaf: Path)
    | ReplaceOp(root: Node, pane: Pane)
    | MoveOp(d: Direction)
    | FocusOp(leaf: Path)
    | SwapOp(d: Direction)
    | KeyOp(d: Direction)
    | LeaveOp
    | GrabOp(border: Grip)
    | DragOp(x: int, y: int)
    | ReleaseOp
    | FrameOp(group: Path, ratios: seq<real>)
    | AreaOp(area: Rect)

  /** A border between two children that exist. */
  predicate GripOn(t: Shape, b: Grip) {
    HasPath(t, b.at) && At(t, b.at).Branch? && b.index + 1 < |At(t, b.at).kids|
  }

  /** A selected border still separates two children of a group of the tree. */
  predicate Names(t: Shape, b: Border) {
    t.Branch? &&
    (|| (t.node == b.node && 0 <= b.index && b.index + 1 < |t.kids|)
     || exists i :: 0 <= i < |t.kids| && Names(t.kids[i], b))
  }

  /** The node is a group's. */
  predicate GroupIn(t: Shape, n: Node) {
    Names(t, Border(n, 0))
  }

  ghost function GroupAt(t: Shape, n: Node): (q: Path)
    requires GroupIn(t, n)
    ensures HasPath(t, q) && At(t, q).Branch? && At(t, q).node == n
  {
    if t.node == n && 1 < |t.kids| then []
    else
      var i :| 0 <= i < |t.kids| && GroupIn(t.kids[i], n);
      [i] + GroupAt(t.kids[i], n)
  }

  /** The selected group is in the tree, or has been left with one child's ratio. */
  ghost predicate Held(s: State) {
    match s.selection
    case None => s.detached == None
    case Some(b) =>
      && b.index >= 0
      && match s.detached
         case None => GroupIn(s.view.tree, b.node)
         case Some(g) => b.node !in Nodes(s.view.tree) && |g.ratios| == 1
  }

  ghost predicate Inv(s: State) {
    && Sound(s.view) && s.area.Proper() && Held(s)
    && (s.grip.Some? ==> GripOn(s.view.tree, s.grip.value))
  }

  /** The group a key press acts on. */
  ghost function SelectedGroup(s: State): Divider
    requires s.selection.Some? && Held(s)
  {
    if s.detached.Some? then s.detached.value
    else
      var g := At(s.view.tree, GroupAt(s.view.tree, s.selection.value.node));
      Divider(g.split, g.ratios)
  }

  /**
   * A key press that indexes a ratio the group does not have: the shrinking
   * child's, or the growing one's if there is anything to take
   * (texel/workspace_layout.go:552-590).
   */
  predicate KeyPanics(g: Divider, index: nat, d: Direction) {
    && Along(d, g.split)
    && if Forward(d) then index + 1 >= |g.ratios|
       else index >= |g.ratios| || (index + 1 >= |g.ratios| && g.ratios[index] > MinRatio)
  }

  /** The node is not the selected group. */
  predicate Unselected(s: State, n: Node) {
    s.selection.Some? ==> s.selection.value.node != n
  }

  /** Ratios for the group at q that the layout takes. */
  ghost predicate Suits(t: Shape, q: Path, rs: seq<real>) {
    HasPath(t, q) && At(t, q).Branch? && |rs| == |At(t, q).kids| && Fits(rs)
  }

  /** What an operation needs: fresh objects, existing targets and a key press that does not panic. */
  ghost predicate Enabled(s: State, op: Op)
    requires Inv(s)
  {
    var t := s.view.tree;
    match op
    case SplitOp(_, a, b, pane) =>
      && a !in Nodes(t) && b !in Nodes(t) && pane !in Panes(t) && (a != b || Joins(t, s.view.focus, op.dir))
      && Unselected(s, a) && Unselected(s, b)
    case RemoveOp(p) => LeafPath(t, p) && p != []
    case ReplaceOp(n, _) => t.Leaf? && Unselected(s, n)
    case FocusOp(p) => LeafPath(t, p)
    case KeyOp(d) => s.selection.Some? ==> !KeyPanics(SelectedGroup(s), s.selection.value.index, d)
    case GrabOp(b) => GripOn(t, b)
    case FrameOp(q, rs) => Suits(t, q, rs)
    case AreaOp(r) => r.Proper()
    case _ => true
  }

  /** A group's ratios after a key press on its border i (texel/workspace_layout.go:552-590). */
  function Pressed(g: Divider, i: nat, d: Direction, area: Rect): seq<real> {
    if !Along(d, g.split) || i + 1 >= |g.ratios| then g.ratios
    else
      var size := if g.split.Vertical? then area.w else area.h;
      if Forward(d) then Shift(g.ratios, i, i + 1, size) else Shift(g.ratios, i + 1, i, size)
  }

  /** Those of the group at b.at. */
  function Keyed(t: Shape, b: Grip, d: Direction, area: Rect): seq<real>
    requires GripOn(t, b)
  {
    Pressed(Divider(At(t, b.at).split, At(t, b.at).ratios), b.index, d, area)
  }

  lemma {:induction false} GroupFits(t: Shape, q: Path)
    requires WellFormed(t) && HasPath(t, q) && At(t, q).Branch?
    ensures |At(t, q).ratios| == |At(t, q).kids| && Fits(At(t, q).ratios)
  {
    Inside(t, q);
  }

  /** The selected border, while the tree has it. */
  ghost function Selected(s: State): (b: Grip)
    requires Inv(s) && s.selection.Some? && Names(s.view.tree, s.selection.value)
    ensures GripOn(s.view.tree, b) && At(s.view.tree, b.at).node == s.selection.value.node
    ensures b.index == s.selection.value.index
  {
    NamesFirst(s.view.tree, s.selection.value);
    NamesOnlyAt(s.view.tree, GroupAt(s.view.tree, s.selection.value.node), s.selection.value);
    Grip(GroupAt(s.view.tree, s.selection.value.node), s.selection.value.index)
  }

  /** What the selection holds after a removal: a selected group that collapses keeps its other ratio. */
  ghost function LeftOf(s: State, p: Path): Option<Divider>
    requires Removable(s.view.tree, p)
  {
    var g := At(s.view.tree, Init(p));
    if Collapses(s.view.tree, p) && !Unselected(s, g.node) then Some(Divider(g.split, Without(g.ratios, Last(p))))
    else s.detached
  }

  ghost function Step(s: State, op: Op): State
    requires Inv(s) && Enabled(s, op)
  {
    var t, f := s.view.tree, s.view.focus;
    match op
    case SplitOp(dir, a, b, pane) =>
      s.(view := View(Split(t, f, dir, a, b, pane), SplitFocus(t, f, dir)))
    case RemoveOp(p) =>
      RemovableLeaf(t, p);
      s.(view := View(Remove(t, p), RemoveFocus(t, p, f)), grip := None, detached := LeftOf(s, p))
    case ReplaceOp(n, p) => s.(view := View(Leaf(n, p), []), grip := None)
    case MoveOp(d) => s.(view := View(t, MovedFocus(s.view, d)))
    case FocusOp(p) => s.(view := View(t, p))
    case SwapOp(d) => s.(view := Swapped(s.view, d))
    case KeyOp(d) =>
      if s.selection.None? then s.(selection := BorderOf(t, f, d))
      else if !Names(t, s.selection.value) then s
      else
        var b := Selected(s);
        KeyedFits(t, b, d, s.area);
        s.(view := View(SetRatios(t, b.at, Keyed(t, b, d, s.area)), f))
    case LeaveOp => s.(selection := None, detached := None)
    case GrabOp(b) => s.(grip := Some(b))
    case DragOp(x, y) =>
      if s.grip.None? then s
      else
        var b := s.grip.value;
        GroupFits(t, b.at);
        s.(view := View(SetRatios(t, b.at, Dragged(t, b.at, b.index, s.area, x, y)), f))
    case ReleaseOp => s.(grip := None)
    case FrameOp(q, rs) => s.(view := View(SetRatios(t, q, rs), f))
    case AreaOp(r) => s.(area := r)
  }

  /** The active pane is at least twice the minimum along the split. */
  ghost predicate RoomToSplit(s: State, dir: SplitType)
    requires Inv(s)
  {
    var r := RectAt(s.view.tree, s.view.focus, s.area);
    if dir.Vertical? then r.w / 2 >= MinPaneWidth else r.h / 2 >= MinPaneHeight
  }

  // ---------------------------------------------------------- one step each

  lemma {:induction false} SplitStep(s: State, op: Op)
    requires Inv(s) && op.SplitOp? && Enabled(s, op)
    ensures Inv(Step(s, op))
  {
    hide Split, SplitFocus, HasPath, At, WellFormed, Distinct, Nodes, Panes;
    var t, f := s.view.tree, s.view.focus;
    SplitViewKeeps(t, f, op.dir, op.first, op.second, op.pane);
    HeldSplit(s, op);
    if s.grip.Some? { SplitKeepsGroups(t, f, op.dir, op.first, op.second, op.pane, s.grip.value.at); }
  }

  /** A split only adds children to the groups there were. */
  lemma {:induction false} SplitKeepsGroups(t: Shape, f: Path, dir: SplitType, a: Node, b: Node, pane: Pane, q: Path)
    requires LeafPath(t, f) && HasPath(t, q) && At(t, q).Branch?
    ensures var t' := Split(t, f, dir, a, b, pane);
      HasPath(t', q) && At(t', q).Branch? && |At(t', q).kids| >= |At(t, q).kids| && At(t', q).node == At(t, q).node
  {
    if Joins(t, f, dir) {
      PutKeepsGroup(t, Init(f), Grown(At(t, Init(f)), b, pane), q);
    } else {
      PutKeepsGroup(t, f, Pair(At(t, f), dir, a, b, pane), q);
    }
  }

  /** Replacing a subtree by a group with the same children first keeps every group. */
  lemma {:induction false} PutKeepsGroup(t: Shape, p: Path, s: Shape, q: Path)
    requires HasPath(t, p) && HasPath(t, q) && At(t, q).Branch? && s.Branch?
    requires s.node == At(t, p).node
    requires At(t, p).Branch? ==> |At(t, p).kids| <= |s.kids| && At(t, p).kids == s.kids[..|At(t, p).kids|]
    ensures var t' := Put(t, p, s);
      HasPath(t', q) && At(t', q).Branch? && |At(t', q).kids| >= |At(t, q).kids| && At(t', q).node == At(t, q).node
  {
    if p == [] {
      if q != [] {
        assert s.kids[q[0]] == t.kids[q[0]];
      }
    } else if q != [] && p[0] == q[0] {
      PutKeepsGroup(t.kids[p[0]], p[1..], s, q[1..]);
    }
  }

  lemma {:induction false} RemoveStep(s: State, op: Op)
    requires Inv(s) && op.RemoveOp? && Enabled(s, op)
    ensures Inv(Step(s, op))
  {
    hide Remove, RemoveFocus, Moved, NextFocus, HasPath, At, WellFormed, Distinct, Nodes, Panes;
    RemoveKeepsForm(s.view.tree, op.leaf);
    RemoveKeeps(s.view.tree, op.leaf);
    RemoveFocusIs(s.view.tree, op.leaf, s.view.focus);
    HeldRemove(s, op);
  }

  lemma {:induction false} RemoveFocusIs(t: Shape, p: Path, f: Path)
    requires Removable(t, p) && LeafPath(t, f)
    ensures LeafPath(Remove(t, p), RemoveFocus(t, p, f))
    ensures if f == p then RemoveFocus(t, p, f) == NextFocus(t, p)
            else At(Remove(t, p), RemoveFocus(t, p, f)) == At(t, f)
  {
    hide Remove, Moved, NextFocus, HasPath, At, WellFormed;
    if f == p { NextFocusIsLeaf(t, p); } else { MovedFinds(t, p, f); }
  }

  lemma {:induction false} SetRatiosGroups(t: Shape, q: Path, rs: seq<real>, b: Grip)
    requires HasPath(t, q) && At(t, q).Branch? && GripOn(t, b)
    ensures GripOn(SetRatios(t, q, rs), b) && At(SetRatios(t, q, rs), b.at).node == At(t, b.at).node
  {
    var g := At(t, q);
    assert g.kids == g.kids[..|g.kids|];
    PutKeepsGroup(t, q, g.(ratios := rs), b.at);
  }

  lemma {:induction false} RatiosStep(s: State, q: Path, rs: seq<real>)
    requires Inv(s) && HasPath(s.view.tree, q) && At(s.view.tree, q).Branch?
    requires |rs| == |At(s.view.tree, q).kids| && Fits(rs)
    ensures Inv(s.(view := View(SetRatios(s.view.tree, q, rs), s.view.focus)))
    ensures At(SetRatios(s.view.tree, q, rs), s.view.focus) == At(s.view.tree, s.view.focus)
  {
    hide SetRatios, HasPath, At, WellFormed, Distinct, Nodes, Panes;
    SetRatiosKeeps(s.view.tree, q, rs);
    SetRatiosAt(s.view.tree, q, rs, s.view.focus);
    if s.selection.Some? && s.detached.None? {
      RatiosNames(s.view.tree, q, rs, Border(s.selection.value.node, 0));
    }
    if s.grip.Some? { SetRatiosGroups(s.view.tree, q, rs, s.grip.value); }
  }

  lemma {:induction false} KeyedFits(t: Shape, b: Grip, d: Direction, area: Rect)
    requires WellFormed(t) && GripOn(t, b)
    ensures |At(t, b.at).ratios| == |At(t, b.at).kids|
    ensures |Keyed(t, b, d, area)| == |At(t, b.at).kids| && Fits(Keyed(t, b, d, area))
    ensures Fills(At(t, b.at).ratios) ==> Fills(Keyed(t, b, d, area))
  {
    hide Shift, HasPath, At;
    GroupFits(t, b.at);
    var g := At(t, b.at);
    var size := if g.split.Vertical? then area.w else area.h;
    ShiftKeeps(g.ratios, b.index, b.index + 1, size);
    ShiftKeeps(g.ratios, b.index + 1, b.index, size);
  }

  lemma {:induction false} SwapStep(s: State, op: Op)
    requires Inv(s) && op.SwapOp? && Enabled(s, op)
    ensures Inv(Step(s, op))
  {
    SwappedSound(s.view, op.d);
    if s.selection.Some? && s.detached.None? {
      SwappedNames(s.view, op.d, Border(s.selection.value.node, 0));
    }
    if s.grip.Some? && Neighbor(s.view.tree, s.view.focus, op.d).Some? {
      var m := Neighbor(s.view.tree, s.view.focus, op.d).value;
      NeighborIsLeaf(s.view.tree, s.view.focus, op.d);
      SwapAt(s.view.tree, At(s.view.tree, s.view.focus).pane, At(s.view.tree, m).pane, s.grip.value.at);
    }
  }

  lemma {:induction false} MoveStep(s: State, op: Op)
    requires Inv(s) && op.MoveOp? && Enabled(s, op)
    ensures Inv(Step(s, op))
  {
    if Neighbor(s.view.tree, s.view.focus, op.d).Some? { NeighborIsLeaf(s.view.tree, s.view.focus, op.d); }
  }

  lemma {:induction false} ReplaceStep(s: State, n: Node, p: Pane)
    requires Inv(s) && Enabled(s, ReplaceOp(n, p))
    ensures Inv(Step(s, ReplaceOp(n, p)))
  {
    if s.selection.Some? { LeafNamesNone(s.view.tree, Border(s.selection.value.node, 0)); }
  }

  lemma {:induction false} HeldSplit(s: State, op: Op)
    requires Inv(s) && op.SplitOp? && Enabled(s, op)
    ensures Held(Step(s, op))
  {
    hide Split, SplitFocus, HasPath, At, WellFormed, Distinct, Nodes, Panes, Names, Joins;
    var t, f := s.view.tree, s.view.focus;
    if s.selection.Some? {
      var n := s.selection.value.node;
      if s.detached.None? {
        SplitNames(t, f, op.dir, op.first, op.second, op.pane, Border(n, 0));
      } else {
        SplitNodes(t, f, op.dir, op.first, op.second, op.pane);
      }
    }
  }

  lemma {:induction false} SplitNodes(t: Shape, f: Path, dir: SplitType, a: Node, b: Node, pane: Pane)
    requires WellFormed(t) && Distinct(t) && LeafPath(t, f)
    requires a !in Nodes(t) && b !in Nodes(t) && pane !in Panes(t) && (a != b || Joins(t, f, dir))
    ensures Nodes(Split(t, f, dir, a, b, pane)) <= Nodes(t) + {a, b}
  {
    hide Distinct, Nodes, Panes;
    if Joins(t, f, dir) {
      JoinKeeps(t, Init(f), b, pane);
    } else {
      SplitKeeps(t, f, dir, a, b, pane);
    }
  }

  lemma {:induction false} HeldRemove(s: State, op: Op)
    requires Inv(s) && op.RemoveOp? && Enabled(s, op)
    ensures Held(Step(s, op))
  {
    hide Remove, RemoveFocus, HasPath, At, Distinct, Nodes, Panes, Names;
    var t, p := s.view.tree, op.leaf;
    RemovableLeaf(t, p);
    RemoveKeeps(t, p);
    if s.selection.Some? && s.detached.None? {
      RemoveKeepsSelection(t, p, Border(s.selection.value.node, 0));
    }
  }

  /** The first key press selects a group of the tree. */
  lemma {:induction false} FirstKey(s: State, d: Direction)
    requires Inv(s) && s.selection.None? && BorderOf(s.view.tree, s.view.focus, d).Some?
    ensures Held(Step(s, KeyOp(d)))
  {
    hide HasPath, At, Names, Crossing;
    var b := BorderOf(s.view.tree, s.view.focus, d).value;
    SelectedNames(s.view.tree, s.view.focus, d);
    NamesFirst(s.view.tree, b);
  }

  /** Every operation keeps the invariant. */
  lemma {:induction false} StepKeeps(s: State, op: Op)
    requires Inv(s) && Enabled(s, op)
    ensures Inv(Step(s, op))
  {
    hide Split, Remove, SetRatios, Swapped, MovedFocus, HasPath, At, WellFormed, Distinct, Nodes, Panes, Dragged;
    var t := s.view.tree;
    match op
    case SplitOp(_, _, _, _) => SplitStep(s, op);
    case RemoveOp(_) => RemoveStep(s, op);
    case MoveOp(_) => MoveStep(s, op);
    case SwapOp(_) => SwapStep(s, op);
    case KeyOp(d) =>
      if s.selection.Some? && Names(t, s.selection.value) {
        var b := Selected(s);
        KeyedFits(t, b, d, s.area);
        RatiosStep(s, b.at, Keyed(t, b, d, s.area));
      } else if s.selection.None? && BorderOf(t, s.view.focus, d).Some? {
        FirstKey(s, d);
      }
    case LeaveOp =>
    case DragOp(x, y) =>
      if s.grip.Some? {
        var b := s.grip.value;
        DraggedFits(t, b.at, b.index, s.area, x, y);
        RatiosStep(s, b.at, Dragged(t, b.at, b.index, s.area, x, y));
      }
    case FrameOp(q, rs) => RatiosStep(s, q, rs);
    case ReplaceOp(n, p) => ReplaceStep(s, n, p);
    case FocusOp(_) =>
    case GrabOp(_) =>
    case ReleaseOp =>
    case AreaOp(_) =>
  }

  // ------------------------------------------------------------------- runs

  /** Each operation of the run is enabled where it happens. */
  ghost predicate Legal(s: State, ops: seq<Op>)
    requires Inv(s)
    decreases |ops|
  {
    ops == [] || (Enabled(s, ops[0]) && (StepKeeps(s, ops[0]); Legal(Step(s, ops[0]), ops[1..])))
  }

  ghost function Run(s: State, ops: seq<Op>): State
    requires Inv(s) && Legal(s, ops)
    decreases |ops|
  {
    if ops == [] then s else (StepKeeps(s, ops[0]); Run(Step(s, ops[0]), ops[1..]))
  }

  ghost function Start(n: Node, p: Pane, area: Rect): State {
    State(View(Leaf(n, p), []), area, None, None, None)
  }

  /**
   * From one pane, every run keeps the tree well-formed and free of sharing,
   * its focus on a leaf, the dragged border in place, and the area tiled.
   */
  lemma {:induction false} RunsKeep(s: State, ops: seq<Op>)
    requires Inv(s) && Legal(s, ops)
    ensures Inv(Run(s, ops))
    ensures Tiles(Run(s, ops).view.tree, Run(s, ops).area)
    decreases |ops|
  {
    if ops == [] {
      LayoutTiles(s.view.tree, s.area);
    } else {
      StepKeeps(s, ops[0]);
      RunsKeep(Step(s, ops[0]), ops[1..]);
    }
  }

  ghost predicate TiledAfter(s: State, ops: seq<Op>)
    requires Inv(s)
  {
    Legal(s, ops) && Inv(Run(s, ops)) && Tiles(Run(s, ops).view.tree, Run(s, ops).area)
  }

  /** A legal run after each of whose operations the area is tiled. */
  ghost predicate TiledThroughout(s: State, ops: seq<Op>)
    requires Inv(s)
  {
    Legal(s, ops) && forall k: nat | k <= |ops| :: TiledAfter(s, ops[..k])
  }

  /** So every legal run keeps the area tiled throughout. */
  lemma {:induction false} RunsTile(s: State, ops: seq<Op>)
    requires Inv(s) && Legal(s, ops)
    ensures TiledThroughout(s, ops)
  {
    hide Step, Enabled, Inv, TiledAfter;
    forall k: nat | k <= |ops| ensures TiledAfter(s, ops[..k]) { PrefixTiles(s, ops, k); }
  }

  lemma {:induction false} PrefixTiles(s: State, ops: seq<Op>, k: nat)
    requires Inv(s) && Legal(s, ops) && k <= |ops|
    ensures TiledAfter(s, ops[..k])
    decreases k
  {
    hide Step, Enabled, Inv, Tiles;
    if k > 0 {
      StepKeeps(s, ops[0]);
      PrefixTiles(Step(s, ops[0]), ops[1..], k - 1);
      assert ops[..k] == [ops[0]] + ops[1..][..k - 1];
      RunFirst(s, ops[0], ops[1..][..k - 1]);
    } else {
      RunsKeep(s, []);
    }
  }

  lemma {:induction false} RunFirst(s: State, op: Op, ops: seq<Op>)
    requires Inv(s) && Enabled(s, op) && Inv(Step(s, op)) && Legal(Step(s, op), ops)
    ensures Legal(s, [op] + ops) && Run(s, [op] + ops) == Run(Step(s, op), ops)
  {
    hide Step, Enabled, Inv;
    assert ([op] + ops)[1..] == ops;
  }

  lemma {:induction false} RunNone(s: State)
    requires Inv(s)
    ensures Legal(s, []) && Run(s, []) == s
  {
  }

  lemma {:induction false} RunBoth(s: State, a: seq<Op>, b: seq<Op>)
    requires Inv(s) && Legal(s, a) && Inv(Run(s, a)) && Legal(Run(s, a), b)
    ensures Legal(s, a + b) && Run(s, a + b) == Run(Run(s, a), b)
    decreases |a|
  {
    hide Step, Enabled, Inv;
    if a == [] {
      assert a + b == b;
    } else {
      StepKeeps(s, a[0]);
      RunBoth(Step(s, a[0]), a[1..], b);
      assert a + b == [a[0]] + (a[1..] + b);
      RunFirst(s, a[0], a[1..] + b);
    }
  }

  lemma {:induction false} StartHolds(n: Node, p: Pane, area: Rect)
    requires area.Proper()
    ensures Inv(Start(n, p, area))
  {
  }

  // ----------------------------------------------------------- conservation

  /** The panes an operation puts on the screen, and those it takes away. */
  function Opened(op: Op): set<Pane> {
    match op
    case SplitOp(_, _, _, pane) => {pane}
    case ReplaceOp(_, pane) => {pane}
    case _ => {}
  }

  ghost function Closed(s: State, op: Op): set<Pane>
    requires Inv(s) && Enabled(s, op)
  {
    match op
    case RemoveOp(p) => {At(s.view.tree, p).pane}
    case ReplaceOp(_, _) => {s.view.tree.pane}
    case _ => {}
  }

  ghost function Focused(s: State): Pane
    requires Inv(s)
  {
    At(s.view.tree, s.view.focus).pane
  }

  /** An operation that does not move the focus by itself. */
  predicate StaysOn(op: Op) {
    op.SwapOp? || op.KeyOp? || op.LeaveOp? || op.GrabOp? || op.DragOp? || op.ReleaseOp? || op.FrameOp? || op.AreaOp?
  }

  /**
   * No operation loses or duplicates a pane. Focus is on the new pane after a
   * split or replacement; a removal moves it only off the pane removed; swaps,
   * resizes and frames leave it on the same pane.
   */
  lemma {:induction false} StepConserves(s: State, op: Op)
    requires Inv(s) && Enabled(s, op)
    ensures Inv(Step(s, op))
    ensures Panes(Step(s, op).view.tree) == Panes(s.view.tree) - Closed(s, op) + Opened(op)
    ensures StaysOn(op) ==> Focused(Step(s, op)) == Focused(s)
    ensures op.SplitOp? || op.ReplaceOp? ==> Focused(Step(s, op)) == op.pane
    ensures op.RemoveOp? && op.leaf != s.view.focus ==> Focused(Step(s, op)) == Focused(s)
  {
    hide Split, Remove, SetRatios, Swapped, MovedFocus, SplitFocus, HasPath, At, WellFormed, Distinct, Nodes, Panes,
      Dragged, Keyed, RemoveFocus;
    StepKeeps(s, op);
    var t, f := s.view.tree, s.view.focus;
    match op
    case SplitOp(dir, a, b, pane) => SplitViewKeeps(t, f, dir, a, b, pane);
    case RemoveOp(p) =>
      RemovableLeaf(t, p);
      RemoveKeeps(t, p);
      RemoveFocusIs(t, p, f);
    case SwapOp(d) => SwappedSound(s.view, d);
    case KeyOp(d) =>
      if s.selection.Some? && Names(t, s.selection.value) {
        var b := Selected(s);
        KeyedFits(t, b, d, s.area);
        RatiosConserve(t, b.at, Keyed(t, b, d, s.area), f);
      }
    case DragOp(x, y) =>
      if s.grip.Some? {
        var b := s.grip.value;
        DraggedFits(t, b.at, b.index, s.area, x, y);
        RatiosConserve(t, b.at, Dragged(t, b.at, b.index, s.area, x, y), f);
      }
    case FrameOp(q, rs) => RatiosConserve(t, q, rs, f);
    case ReplaceOp(n, p) => ReplaceConserves(t, n, p);
    case _ =>
  }

  lemma {:induction false} RatiosConserve(t: Shape, q: Path, rs: seq<real>, f: Path)
    requires WellFormed(t) && Distinct(t) && HasPath(t, q) && At(t, q).Branch? && LeafPath(t, f)
    requires |rs| == |At(t, q).kids| && Fits(rs)
    ensures Panes(SetRatios(t, q, rs)) == Panes(t)
    ensures LeafPath(SetRatios(t, q, rs), f) && At(SetRatios(t, q, rs), f) == At(t, f)
  {
    hide SetRatios, HasPath, At, WellFormed, Distinct, Nodes, Panes;
    SetRatiosKeeps(t, q, rs);
    SetRatiosAt(t, q, rs, f);
  }

  lemma {:induction false} ReplaceConserves(t: Shape, n: Node, p: Pane)
    requires t.Leaf?
    ensures Panes(Leaf(n, p)) == Panes(t) - {t.pane} + {p} && At(Leaf(n, p), []).pane == p
  {
  }

  ghost function EverOpened(ops: seq<Op>): set<Pane> {
    if ops == [] then {} else Opened(ops[0]) + EverOpened(ops[1..])
  }

  ghost function EverClosed(s: State, ops: seq<Op>): set<Pane>
    requires Inv(s) && Legal(s, ops)
    decreases |ops|
  {
    if ops == [] then {}
    else (StepKeeps(s, ops[0]); Closed(s, ops[0]) + EverClosed(Step(s, ops[0]), ops[1..]))
  }

  /** Over any run, a pane stays unless it is closed, and none appears that was not opened. */
  lemma {:induction false} RunConserves(s: State, ops: seq<Op>)
    requires Inv(s) && Legal(s, ops)
    ensures Panes(s.view.tree) - EverClosed(s, ops) <= Panes(Run(s, ops).view.tree)
    ensures Panes(Run(s, ops).view.tree) <= Panes(s.view.tree) + EverOpened(ops)
    decreases |ops|
  {
    hide Step, Enabled, Closed, Opened, Panes;
    if ops != [] {
      StepConserves(s, ops[0]);
      RunConserves(Step(s, ops[0]), ops[1..]);
    }
  }

  // ----------------------------------------------------------- filled groups

  /** The removal after which the leaf's group has no width left. */
  ghost predicate Empties(s: State, op: Op)
    requires Inv(s) && Enabled(s, op)
  {
    op.RemoveOp? && (RemovableLeaf(s.view.tree, op.leaf);
      var t, p := s.view.tree, op.leaf;
      !Collapses(t, p) && Sum(Without(At(t, Init(p)).ratios, Last(p))) <= 0.0)
  }

  /** Frames whose ratios fill their group. */
  ghost predicate FullFrame(op: Op) {
    op.FrameOp? ==> Fills(op.ratios)
  }

  lemma {:induction false} SplitFilled(t: Shape, f: Path, dir: SplitType, a: Node, b: Node, pane: Pane)
    requires WellFormed(t) && Filled(t) && LeafPath(t, f)
    ensures Filled(Split(t, f, dir, a, b, pane))
  {
    hide HasPath, At, Put, WellFormed, Equal, Fills;
    HalvesFill();
    if Joins(t, f, dir) {
      var g := At(t, Init(f));
      PutFilled(t, Init(f), Grown(g, b, pane));
      EqualFills(|g.kids| + 1);
    } else {
      PutFilled(t, f, Pair(At(t, f), dir, a, b, pane));
    }
  }

  lemma {:induction false} RatiosFilled(t: Shape, q: Path, rs: seq<real>)
    requires Filled(t) && HasPath(t, q) && At(t, q).Branch? && Fills(rs)
    ensures Filled(SetRatios(t, q, rs)) && Fills(At(t, q).ratios)
  {
    PutFilled(t, q, At(t, q).(ratios := rs));
  }

  lemma {:induction false} SwapFilled(t: Shape, x: Pane, y: Pane)
    requires Filled(t)
    ensures Filled(Swap(t, x, y))
  {
    if t.Branch? {
      forall i | 0 <= i < |t.kids| ensures Filled(Swap(t, x, y).kids[i]) { SwapFilled(t.kids[i], x, y); }
    }
  }

  /** Ratios go on filling every group until a removal takes all of a group's width. */
  lemma {:induction false} StepKeepsFilled(s: State, op: Op)
    requires Inv(s) && Enabled(s, op) && Filled(s.view.tree) && FullFrame(op)
    ensures Filled(Step(s, op).view.tree) <==> !Empties(s, op)
  {
    hide Split, Remove, SetRatios, Swapped, MovedFocus, HasPath, At, WellFormed, Distinct, Nodes, Panes, Dragged,
      Filled, Fills, Keyed, Collapses;
    var t, f := s.view.tree, s.view.focus;
    match op
    case SplitOp(dir, a, b, pane) => SplitFilled(t, f, dir, a, b, pane);
    case RemoveOp(p) => RemoveKeepsFilled(t, p);
    case SwapOp(d) => SwappedFilled(s.view, d);
    case KeyOp(d) =>
      if s.selection.Some? && Names(t, s.selection.value) {
        var b := Selected(s);
        RatiosNow(t, b.at);
        KeyedFits(t, b, d, s.area);
        RatiosFilled(t, b.at, Keyed(t, b, d, s.area));
      }
    case DragOp(x, y) =>
      if s.grip.Some? {
        var b := s.grip.value;
        RatiosNow(t, b.at);
        DraggedFits(t, b.at, b.index, s.area, x, y);
        RatiosFilled(t, b.at, Dragged(t, b.at, b.index, s.area, x, y));
      }
    case FrameOp(q, rs) => RatiosFilled(t, q, rs);
    case ReplaceOp(n, p) => LeafFilled(n, p);
    case _ =>
  }

  lemma {:induction false} RatiosNow(t: Shape, q: Path)
    requires Filled(t) && HasPath(t, q) && At(t, q).Branch?
    ensures Fills(At(t, q).ratios)
  {
    PutFilled(t, q, t);
  }

  lemma {:induction false} LeafFilled(n: Node, p: Pane)
    ensures Filled(Leaf(n, p))
  {
  }

  lemma {:induction false} SwappedFilled(v: View, d: Direction)
    requires Sound(v) && Filled(v.tree)
    ensures Filled(Swapped(v, d).tree)
  {
    hide Filled, Swap;
    if Neighbor(v.tree, v.focus, d).Some? {
      var m := Neighbor(v.tree, v.focus, d).value;
      NeighborIsLeaf(v.tree, v.focus, d);
      SwapFilled(v.tree, At(v.tree, v.focus).pane, At(v.tree, m).pane);
    }
  }

  /** A run in which no removal takes all the width its group has left. */
  ghost predicate Steady(s: State, ops: seq<Op>)
    requires Inv(s) && Legal(s, ops)
    decreases |ops|
  {
    ops == [] ||
    (StepKeeps(s, ops[0]); !Empties(s, ops[0]) && FullFrame(ops[0]) && Steady(Step(s, ops[0]), ops[1..]))
  }

  /** Over such a run the ratios of every group sum to 1. */
  lemma {:induction false} RunKeepsFilled(s: State, ops: seq<Op>)
    requires Inv(s) && Legal(s, ops) && Filled(s.view.tree) && Steady(s, ops)
    ensures Filled(Run(s, ops).view.tree)
    decreases |ops|
  {
    hide Step, Enabled, Empties, FullFrame, Filled;
    if ops != [] {
      StepKeeps(s, ops[0]);
      StepKeepsFilled(s, ops[0]);
      RunKeepsFilled(Step(s, ops[0]), ops[1..]);
    }
  }

  // ------------------------------------------------- the keyboard's selection

  lemma {:induction false} NamesInside(t: Shape, b: Border)
    requires Names(t, b)
    ensures b.node in Nodes(t)
  {
    if !(t.node == b.node && 0 <= b.index && b.index + 1 < |t.kids|) {
      var i :| 0 <= i < |t.kids| && Names(t.kids[i], b);
      NamesInside(t.kids[i], b);
    }
  }

  lemma {:induction false} NamesFirst(t: Shape, b: Border)
    requires Names(t, b)
    ensures GroupIn(t, b.node)
  {
    if !(t.node == b.node && 0 <= b.index && b.index + 1 < |t.kids|) {
      var i :| 0 <= i < |t.kids| && Names(t.kids[i], b);
      NamesFirst(t.kids[i], b);
    }
  }

  /** In a tree without sharing the group at q is the only one a border of its node can name. */
  lemma {:induction false} NamesOnlyAt(t: Shape, q: Path, b: Border)
    requires Distinct(t) && HasPath(t, q) && At(t, q).node == b.node && Names(t, b)
    ensures At(t, q).Branch? && b.index + 1 < |At(t, q).kids|
  {
    Inside(t, q);
    if q == [] {
      forall i | 0 <= i < |t.kids| ensures !Names(t.kids[i], b) {
        if Names(t.kids[i], b) { NamesInside(t.kids[i], b); }
      }
    } else {
      Inside(t.kids[q[0]], q[1..]);
      forall i | 0 <= i < |t.kids| && i != q[0] ensures !Names(t.kids[i], b) {
        if Names(t.kids[i], b) {
          NamesInside(t.kids[i], b);
          KidsApart(t, i, q[0]);
        }
      }
      NamesOnlyAt(t.kids[q[0]], q[1..], b);
    }
  }

  lemma {:induction false} PutNames(t: Shape, q: Path, s: Shape, b: Border)
    requires HasPath(t, q) && Names(t, b) && (Names(At(t, q), b) ==> Names(s, b))
    ensures Names(Put(t, q, s), b)
  {
    if q != [] {
      var t' := Put(t, q, s);
      assert t'.kids[q[0]] == Put(t.kids[q[0]], q[1..], s);
      if !(t.node == b.node && 0 <= b.index && b.index + 1 < |t.kids|) {
        var i :| 0 <= i < |t.kids| && Names(t.kids[i], b);
        if i == q[0] {
          PutNames(t.kids[i], q[1..], s, b);
          assert Names(t'.kids[i], b);
        } else {
          assert t'.kids[i] == t.kids[i] && Names(t'.kids[i], b);
        }
      }
    }
  }

  lemma {:induction false} SurvivorNames(t: Shape, p: Path, b: Border)
    requires Removable(t, p) && Names(At(t, Init(p)), b)
    requires At(t, Init(p)).node == b.node ==> b.index + 2 < |At(t, Init(p)).kids|
    ensures Names(Survivors(t, p), b)
  {
    var g, i, s := At(t, Init(p)), Last(p), Survivors(t, p);
    if !(g.node == b.node && 0 <= b.index && b.index + 1 < |g.kids|) {
      var k :| 0 <= k < |g.kids| && Names(g.kids[k], b);
      LeafKid(t, p);
      assert k != i;
      var kids := Without(g.kids, i);
      assert kids[if k < i then k else k - 1] == g.kids[k];
      if |kids| > 1 { assert Names(s.kids[if k < i then k else k - 1], b); }
    }
  }

  lemma {:induction false} LeafKid(t: Shape, p: Path)
    requires Removable(t, p)
    ensures At(t, Init(p)).kids[Last(p)] == At(t, p)
  {
    PathLast(t, p);
  }

  /** The removal that leaves a selected border with one child, or none, beside it. */
  predicate Loses(t: Shape, p: Path, b: Border)
    requires p != [] && HasPath(t, Init(p)) && At(t, Init(p)).Branch?
  {
    At(t, Init(p)).node == b.node && b.index + 2 >= |At(t, Init(p)).kids|
  }

  /**
   * The keyboard's selection outlives a removal exactly when the leaf removed
   * is not in its group, or the group keeps a child after the border.
   */
  lemma {:induction false} RemoveKeepsSelection(t: Shape, p: Path, b: Border)
    requires WellFormed(t) && Distinct(t) && LeafPath(t, p) && p != [] && Names(t, b)
    ensures Removable(t, p)
    ensures Names(Remove(t, p), b) <==> !Loses(t, p, b)
  {
    hide HasPath, At, Put, Distinct, Nodes, Survivors, Names;
    RemovableLeaf(t, p);
    var q := Init(p);
    RemoveKeeps(t, p);
    RemovedGroup(t, p);
    if !Loses(t, p, b) {
      if Names(At(t, q), b) { SurvivorNames(t, p, b); }
      PutNames(t, q, Survivors(t, p), b);
    } else if Names(Remove(t, p), b) {
      if Collapses(t, p) {
        NamesInside(Remove(t, p), b);
      } else {
        NamesOnlyAt(Remove(t, p), q, b);
      }
    }
  }

  lemma {:induction false} SwapNames(t: Shape, x: Pane, y: Pane, b: Border)
    requires Names(t, b)
    ensures Names(Swap(t, x, y), b)
  {
    var t' := Swap(t, x, y);
    if !(t.node == b.node && 0 <= b.index && b.index + 1 < |t.kids|) {
      var i :| 0 <= i < |t.kids| && Names(t.kids[i], b);
      SwapNames(t.kids[i], x, y, b);
      assert Names(t'.kids[i], b);
    }
  }

  lemma {:induction false} GroupNames(g: Shape, s: Shape, b: Border)
    requires Names(g, b) && s.Branch? && s.node == g.node && |g.kids| <= |s.kids| && g.kids == s.kids[..|g.kids|]
    ensures Names(s, b)
  {
    if !(g.node == b.node && 0 <= b.index && b.index + 1 < |g.kids|) {
      var i :| 0 <= i < |g.kids| && Names(g.kids[i], b);
      assert s.kids[i] == g.kids[i];
      assert Names(s.kids[i], b);
    }
  }

  lemma {:induction false} SplitNames(t: Shape, f: Path, dir: SplitType, a: Node, c: Node, pane: Pane, b: Border)
    requires LeafPath(t, f) && Names(t, b)
    ensures Names(Split(t, f, dir, a, c, pane), b)
  {
    hide HasPath, At, Put;
    if Joins(t, f, dir) {
      var g := At(t, Init(f));
      if Names(g, b) { GroupNames(g, Grown(g, c, pane), b); }
      PutNames(t, Init(f), Grown(g, c, pane), b);
    } else {
      PutNames(t, f, Pair(At(t, f), dir, a, c, pane), b);
    }
  }

  lemma {:induction false} RatiosNames(t: Shape, q: Path, rs: seq<real>, b: Border)
    requires HasPath(t, q) && At(t, q).Branch? && Names(t, b)
    ensures Names(SetRatios(t, q, rs), b)
  {
    hide HasPath, At, Put;
    var g := At(t, q);
    assert g.kids == g.kids[..|g.kids|];
    if Names(g, b) { GroupNames(g, g.(ratios := rs), b); }
    PutNames(t, q, g.(ratios := rs), b);
  }

  lemma {:induction false} SwappedNames(v: View, d: Direction, b: Border)
    requires Sound(v) && Names(v.tree, b)
    ensures Names(Swapped(v, d).tree, b)
  {
    hide Names, Swap;
    if Neighbor(v.tree, v.focus, d).Some? {
      var m := Neighbor(v.tree, v.focus, d).value;
      NeighborIsLeaf(v.tree, v.focus, d);
      SwapNames(v.tree, At(v.tree, v.focus).pane, At(v.tree, m).pane, b);
    }
  }

  /** The border a first key press selects is one of the tree. */
  lemma {:induction false} SelectedNames(t: Shape, f: Path, d: Direction)
    requires HasPath(t, f) && BorderOf(t, f, d).Some?
    ensures Names(t, BorderOf(t, f, d).value)
  {
    hide HasPath, At, Crossing;
    CrossingOnPath(t, f, d);
    var c := Crossing(t, f, d).value;
    SpotNames(t, c.at, c.Index());
  }

  lemma {:induction false} SpotNames(t: Shape, q: Path, i: nat)
    requires HasPath(t, q) && At(t, q).Branch? && i + 1 < |At(t, q).kids|
    ensures Names(t, Border(At(t, q).node, i))
  {
    if q != [] {
      SpotNames(t.kids[q[0]], q[1..], i);
      assert Names(t.kids[q[0]], Border(At(t, q).node, i));
    }
  }

  /** The selection names a border exactly while its group, in the tree, has a ratio after it. */
  lemma {:induction false} NamesExactly(s: State)
    requires Inv(s) && s.selection.Some?
    ensures Names(s.view.tree, s.selection.value) <==>
            s.detached.None? && s.selection.value.index + 1 < |SelectedGroup(s).ratios|
  {
    hide HasPath, At, Distinct, Names, Nodes;
    var t, b := s.view.tree, s.selection.value;
    if s.detached.Some? {
      if Names(t, b) { NamesInside(t, b); }
    } else {
      var q := GroupAt(t, b.node);
      GroupFits(t, q);
      if Names(t, b) { NamesOnlyAt(t, q, b); }
      if b.index + 1 < |At(t, q).kids| { SpotNames(t, q, b.index); }
    }
  }

  /**
   * A key press panics exactly when it is along the split of a group that has
   * lost the border, unless it is backward and what it would take from has at
   * most a tenth; any other key press on a lost border changes nothing.
   */
  lemma {:induction false} KeyPanicsExactly(s: State, d: Direction)
    requires Inv(s) && s.selection.Some?
    ensures var i, g := s.selection.value.index, SelectedGroup(s);
      !Enabled(s, KeyOp(d)) <==>
        && !Names(s.view.tree, s.selection.value) && Along(d, g.split)
        && (Forward(d) || i >= |g.ratios| || g.ratios[i] > MinRatio)
    ensures Enabled(s, KeyOp(d)) && !Names(s.view.tree, s.selection.value) ==> Step(s, KeyOp(d)) == s
  {
    hide Names;
    NamesExactly(s);
  }

  /** A held selection goes on naming a border until a removal takes one of its sides away. */
  lemma {:induction false} SelectionKept(s: State, op: Op)
    requires Inv(s) && Enabled(s, op) && s.selection.Some? && Names(s.view.tree, s.selection.value)
    ensures Names(Step(s, op).view.tree, s.selection.value) <==>
            !(op.RemoveOp? && (RemovableLeaf(s.view.tree, op.leaf); Loses(s.view.tree, op.leaf, s.selection.value)))
  {
    hide Split, Remove, SetRatios, Swapped, MovedFocus, HasPath, At, WellFormed, Distinct, Nodes, Panes, Dragged, Keyed,
      Names, Loses;
    var t, f, b := s.view.tree, s.view.focus, s.selection.value;
    match op
    case SplitOp(dir, a, c, pane) => SplitNames(t, f, dir, a, c, pane, b);
    case RemoveOp(p) => RemoveKeepsSelection(t, p, b);
    case SwapOp(d) => SwappedNames(s.view, d, b);
    case KeyOp(d) =>
      var g := Selected(s);
      KeyedFits(t, g, d, s.area);
      RatiosNames(t, g.at, Keyed(t, g, d, s.area), b);
    case DragOp(x, y) =>
      if s.grip.Some? {
        var g := s.grip.value;
        DraggedFits(t, g.at, g.index, s.area, x, y);
        RatiosNames(t, g.at, Dragged(t, g.at, g.index, s.area, x, y), b);
      }
    case FrameOp(q, rs) => RatiosNames(t, q, rs, b);
    case ReplaceOp(_, _) => LeafNamesNone(t, b);
    case _ =>
  }

  lemma {:induction false} LeafNamesNone(t: Shape, b: Border)
    requires t.Leaf?
    ensures !Names(t, b)
  {
  }
}
