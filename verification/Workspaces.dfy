/**
 * A workspace: a tree laid out over an area, and the operations users reach it
 * by. Each method performs exactly one step of the state machine in Runs.
 */
module Workspaces {
  import opened Prelude
  import opened Ratios
  import opened PaneTree
  import opened Layout
  import opened Navigation
  import opened Edits
  import opened Borders
  import opened TreeHeap
  import opened RemoveHeap
  import opened BorderHeap
  import opened Runs

  class Workspace {
    const tree: Tree
    var x: int
    var y: int
    var width: int
    var height: int
    var mouseResizeBorder: Option<Border>
    /** The desktop's keyboard selection (texel/desktop_engine_control_mode.go:232),
        kept beside the workspace it acts on. */
    var resizeSelection: Option<Border>
    /** Where the dragged border sits in the tree. */
    ghost var grip: Option<Grip>
    /** What the selected group's fields are once it is out of the tree. */
    ghost var detached: Option<Divider>

    ghost function Repr(): set<object>
      reads this, tree
    {
      {this, tree} + if tree.view.Some? then Nodes(tree.view.value.tree) + Panes(tree.view.value.tree) else {}
    }

    /** The node the keyboard's selection holds, in the tree or not. */
    ghost function Selection(): set<object>
      reads this
    {
      if resizeSelection.Some? then {resizeSelection.value.node} else {}
    }

    ghost function Area(): Rect
      reads this
    {
      Rect(x, y, width, height)
    }

    ghost function Now(): State
      requires tree.view.Some?
      reads this, tree
    {
      State(tree.view.value, Area(), grip, resizeSelection, detached)
    }

    /** A selected group out of the tree still has its fields. */
    ghost predicate Kept()
      reads this, Selection()
    {
      detached.Some? ==>
        && resizeSelection.Some?
        && resizeSelection.value.node.split == detached.value.split
        && resizeSelection.value.node.ratios == detached.value.ratios
    }

    /** Everything but the rectangles and the active mark. */
    ghost predicate Sound'()
      reads Repr(), Selection()
    {
      && tree.Valid() && Inv(Now())
      && Kept()
      && match grip
         case None => mouseResizeBorder == None
         case Some(b) => mouseResizeBorder == Some(Border(At(tree.view.value.tree, b.at).node, b.index))
    }

    ghost predicate Valid()
      reads Repr(), Selection()
    {
      && Sound'() && Laid(tree.view.value.tree, Area())
      && MarkedAmong(Panes(tree.view.value.tree)) == {tree.Active()}
    }

    constructor (pane: Pane, x: int, y: int, width: int, height: int)
      requires width >= 0 && height >= 0
      modifies pane
      ensures Valid() && fresh(tree) && fresh(tree.root)
      ensures Now() == Start(tree.root, pane, Rect(x, y, width, height))
    {
      this.x, this.y, this.width, this.height := x, y, width, height;
      mouseResizeBorder, grip, resizeSelection, detached := None, None, None, None;
      tree := new Tree.NewTree();
      new;
      tree.SetRoot(pane);
      pane.isActive := true;
      RecalculateLayout();
    }

    /** recalculateLayout (texel/workspace_layout.go:498-500). */
    method RecalculateLayout()
      requires Sound'()
      modifies Panes(tree.view.value.tree)`absX0, Panes(tree.view.value.tree)`absY0
      modifies Panes(tree.view.value.tree)`absX1, Panes(tree.view.value.tree)`absY1
      ensures Sound'() && Laid(tree.view.value.tree, Area())
      ensures MarkedAmong(Panes(tree.view.value.tree)) == old(MarkedAmong(Panes(tree.view.value.tree)))
    {
      hide Rep, HasPath, At, WellFormed, Distinct, Nodes, Panes, Laid;
      ghost var t := tree.view.value.tree;
      assert allocated(Nodes(t)) && allocated(Panes(t));
      label Start:
      ResizeNode(tree.root, x, y, width, height, t, null);
      assert old@Start(Rep(t, null)) == Rep(t, null);
    }

    /** setArea (texel/workspace_layout.go:16-19). */
    method SetArea(x: int, y: int, width: int, height: int)
      requires Valid() && width >= 0 && height >= 0
      modifies this, Panes(tree.view.value.tree)
      ensures Valid() && Now() == Step(old(Now()), AreaOp(Rect(x, y, width, height)))
    {
      hide Rep, HasPath, At, WellFormed, Distinct, Nodes, Panes, Laid, MarkedAmong;
      ghost var t := tree.view.value.tree;
      assert allocated(Nodes(t)) && allocated(Panes(t));
      label Start:
      this.x, this.y, this.width, this.height := x, y, width, height;
      assert old@Start(Rep(t, null)) == Rep(t, null);
      assert old@Start(MarkedAmong(Panes(t))) == MarkedAmong(Panes(t));
      RecalculateLayout();
    }

    /** The guard of PerformSplit (texel/workspace_layout.go:366-379). */
    method Splittable(splitDir: SplitType) returns (ok: bool)
      requires Valid()
      ensures ok <==> RoomToSplit(Now(), splitDir)
    {
      ghost var t, f := tree.view.value.tree, tree.view.value.focus;
      LeafField(t, f);
      LaidAt(t, f, Area());
      RectWithin(t, f, Area());
      Inside(t, f);
      var p := tree.activeLeaf.pane;
      var currentW := if p.absX1 - p.absX0 < 0 then 0 else p.absX1 - p.absX0;
      var currentH := if p.absY1 - p.absY0 < 0 then 0 else p.absY1 - p.absY0;
      if splitDir == Vertical && currentW / 2 < MinPaneWidth { return false; }
      if splitDir == Horizontal && currentH / 2 < MinPaneHeight { return false; }
      return true;
    }

    /** PerformSplit (texel/workspace_layout.go:360-496), at the ratios its animation ends on. */
    method PerformSplit(splitDir: SplitType) returns (pane: Pane?, ghost op: Option<Op>)
      requires Valid()
      modifies Repr()
      ensures Valid() && (pane == null <==> !RoomToSplit(old(Now()), splitDir))
      ensures pane == null ==> Now() == old(Now())
      ensures pane != null ==>
        && fresh(pane) && op.Some? && op.value.SplitOp? && op.value.dir == splitDir && op.value.pane == pane
        && Enabled(old(Now()), op.value) && Now() == Step(old(Now()), op.value)
    {
      hide Rep, HasPath, At, WellFormed, Distinct, Nodes, Panes, Laid, MarkedAmong, Marked, Split, SplitFocus,
        Joins, RoomToSplit, Held, Names;
      ghost var s := Now();
      ghost var t := tree.view.value.tree;
      assert allocated(Nodes(t)) && allocated(Panes(t));
      label Start:
      var ok := Splittable(splitDir);
      assert old@Start(Valid()) == Valid();
      if !ok { return null, None; }
      Inside(t, tree.view.value.focus);
      MarkedIs(t, tree.Active());
      var newPane := new Pane();
      assert old@Start(Valid()) == Valid();
      if s.detached.Some? { HeldApart(s); }
      label Split:
      var newNode, first := tree.SplitFocused(splitDir, newPane);
      assert old@Split(Kept()) == Kept();
      pane, op := newPane, Some(SplitOp(splitDir, first, newNode, newPane));
      SplitStep(s, op.value);
      if grip.Some? {
        SplitKeepsGroups(t, s.view.focus, splitDir, first, newNode, newPane, grip.value.at);
      }
      MarkedIs(tree.view.value.tree, newPane);
      Inside(tree.view.value.tree, tree.view.value.focus);
      RecalculateLayout();
    }

    /** The part of doRemoveNode that changes the tree (texel/workspace_layout.go:96-163, 168-170). */
    method Detach(parent: Node, closingIndex: nat, wasActive: bool, ghost p: Path)
      requires Sound'() && Enabled(Now(), RemoveOp(p)) && Removable(tree.view.value.tree, p)
      requires At(tree.view.value.tree, Init(p)).node == parent
      requires closingIndex == Last(p) && (wasActive <==> p == tree.view.value.focus)
      modifies tree, Nodes(tree.view.value.tree), this`detached
      ensures tree.Valid() && Kept() && detached == LeftOf(old(Now()), p)
      ensures var v := old(tree.view.value);
        tree.view == Some(View(Remove(v.tree, p), RemoveFocus(v.tree, p, v.focus)))
    {
      hide Rep, HasPath, At, WellFormed, Distinct, Nodes, Panes, Remove, RemoveFocus, NextFocus, Moved, Removable,
        Held, Names;
      ghost var s := Now();
      ghost var t, f := s.view.tree, s.view.focus;
      assert allocated(Nodes(t)) && allocated(Panes(t));
      RemoveKeeps(t, p);
      RemoveKeepsForm(t, p);
      RemoveFocusIs(t, p, f);
      ClosingGroup(t, p);
      if s.detached.Some? { HeldApart(s); }
      label Start:
      var newRoot, nextActive := RemoveLeaf(tree.root, parent, closingIndex, t, p);
      assert old@Start(Kept()) && s.detached.Some? ==> Kept();
      detached := LeftOf(s, p);
      tree.Adopt(newRoot, if wasActive then nextActive else tree.activeLeaf,
                 View(Remove(t, p), RemoveFocus(t, p, f)));
    }

    /** doRemoveNode (texel/workspace_layout.go:90-188) for a pane that is not the root. */
    method DoRemoveNode(target: Node, parent: Node, closingIndex: nat, wasActive: bool, ghost p: Path)
      requires Valid() && grip.None? && Enabled(Now(), RemoveOp(p)) && HasPath(tree.view.value.tree, Init(p))
      requires At(tree.view.value.tree, p).node == target && At(tree.view.value.tree, Init(p)).node == parent
      requires closingIndex == Last(p) && (wasActive <==> p == tree.view.value.focus)
      modifies Repr()
      ensures Valid() && Now() == Step(old(Now()), RemoveOp(p))
    {
      hide Rep, HasPath, At, WellFormed, Distinct, Nodes, Panes, Laid, MarkedAmong, Remove, RemoveFocus,
        NextFocus, Moved, Removable, Held, Names, LeftOf;
      ghost var s := Now();
      ghost var t, f := s.view.tree, s.view.focus;
      RemovableLeaf(t, p);
      ghost var t' := Remove(t, p);
      assert allocated(Nodes(t)) && allocated(Panes(t));
      RemoveStep(s, RemoveOp(p));
      RemoveKeeps(t, p);
      RemoveFocusIs(t, p, f);
      LeafField(t, p);
      Inside(t, p);
      Inside(t, f);
      MarkedIs(t, tree.Active());
      var pane := target.pane;
      label Start:
      Detach(parent, closingIndex, wasActive, p);
      assert old@Start(MarkedAmong(Panes(t))) == MarkedAmong(Panes(t));
      LeafField(t', tree.view.value.focus);
      Inside(t', tree.view.value.focus);
      MarkedIs(t, old(tree.Active()));
      label Removed:
      Unmark(pane, if wasActive then tree.activeLeaf.pane else null);
      assert old@Removed(Rep(t', null)) == Rep(t', null);
      MarkedIs(t', tree.Active());
      RecalculateLayout();
    }

    /** The closed pane loses the mark, and the pane focused instead of it, if any, gets it. */
    method Unmark(closed: Pane, next: Pane?)
      requires closed != next
      modifies closed`isActive
      modifies (if next == null then {} else {next})`isActive
      ensures !closed.isActive && (next != null ==> next.isActive)
    {
      closed.isActive := false;
      if next != null { next.isActive := true; }
    }

    /** finishMouseResize (texel/workspace_navigation.go:223-229). */
    method FinishMouseResize()
      requires Valid()
      modifies this`mouseResizeBorder, this`grip
      ensures Valid() && Now() == Step(old(Now()), ReleaseOp)
    {
      hide Rep, HasPath, At, WellFormed, Distinct, Nodes, Panes, Laid, MarkedAmong;
      ghost var t := tree.view.value.tree;
      assert allocated(Nodes(t)) && allocated(Panes(t));
      label Start:
      mouseResizeBorder, grip := None, None;
      assert old@Start(Rep(t, null)) == Rep(t, null) && old@Start(Laid(t, Area())) == Laid(t, Area());
      assert old@Start(MarkedAmong(Panes(t))) == MarkedAmong(Panes(t));
    }

    /** startMouseResize (texel/workspace_navigation.go:211-221). */
    method StartMouseResize(border: Border, ghost b: Grip)
      requires Valid() && Enabled(Now(), GrabOp(b))
      requires border == Border(At(tree.view.value.tree, b.at).node, b.index)
      modifies this`mouseResizeBorder, this`grip
      ensures Valid() && Now() == Step(old(Now()), GrabOp(b))
    {
      hide Rep, HasPath, At, WellFormed, Distinct, Nodes, Panes, Laid, MarkedAmong;
      ghost var t := tree.view.value.tree;
      assert allocated(Nodes(t)) && allocated(Panes(t));
      label Start:
      mouseResizeBorder, grip := Some(border), Some(b);
      assert old@Start(Rep(t, null)) == Rep(t, null) && old@Start(Laid(t, Area())) == Laid(t, Area());
      assert old@Start(MarkedAmong(Panes(t))) == MarkedAmong(Panes(t));
    }

    /** The last pane is closed and a welcome pane takes its place
        (texel/workspace_layout.go:45-58, texel/workspace.go:207-222, 322-351). */
    method ReplaceRoot() returns (pane: Pane)
      requires Valid() && tree.view.value.tree.Leaf?
      modifies Repr()
      ensures Valid() && fresh(pane) && fresh(tree.root)
      ensures Now() == Step(old(Now()), ReplaceOp(tree.root, pane))
    {
      tree.activeLeaf.pane.isActive := false;
      tree.root, tree.activeLeaf := null, null;
      mouseResizeBorder, grip := None, None;
      pane := new Pane();
      tree.SetRoot(pane);
      pane.isActive := true;
      RecalculateLayout();
    }

    /** removeNode without its animation (texel/workspace_layout.go:21-86):
        the removal happens unless target is a root that must stay. */
    method RemoveNode(target: Node, allowRoot: bool, ghost p: Path) returns (pane: Pane?)
      requires Valid() && LeafPath(tree.view.value.tree, p) && At(tree.view.value.tree, p).node == target
      modifies Repr()
      ensures Valid()
      ensures p != [] ==> Now() == Step(old(Now()), RemoveOp(p))
      ensures p == [] && !allowRoot ==> Now() == Step(old(Now()), ReleaseOp)
      ensures p == [] && allowRoot ==>
        && pane != null && tree.root != null && fresh(pane) && fresh(tree.root)
        && Now() == Step(old(Now()), ReplaceOp(tree.root, pane))
    {
      hide Rep, HasPath, At, WellFormed, Distinct, Nodes, Panes, Laid, MarkedAmong, Remove, RemoveFocus;
      ghost var t, f := tree.view.value.tree, tree.view.value.focus;
      pane := null;
      if mouseResizeBorder.Some? { FinishMouseResize(); }
      ParentField(t, p);
      var isRoot := target.parent == null;
      if isRoot && !allowRoot { return; }
      var wasActive := tree.activeLeaf == target;
      if isRoot {
        PathRoot(t);
        pane := ReplaceRoot();
        return;
      }
      NodeAtOnePath(t, p, f);
      var parent := target.parent;
      assert allocated(Nodes(t)) && allocated(Panes(t));
      label Search:
      var closingIndex := IndexOf(parent.children, target);
      assert old@Search(Valid()) == Valid();
      DoRemoveNode(target, parent, closingIndex, wasActive, p);
    }

    /** moveActivePane (texel/workspace_navigation.go:16-61). */
    method MoveActivePane(d: Direction) returns (moved: bool)
      requires Valid()
      modifies Repr()
      ensures Valid() && Now() == Step(old(Now()), MoveOp(d))
      ensures moved <==> Neighbor(old(Now()).view.tree, old(Now()).view.focus, d).Some?
    {
      hide Rep, HasPath, At, WellFormed, Distinct, Nodes, Panes, Laid, MarkedAmong, Neighbor;
      ghost var s := Now();
      ghost var t, f := s.view.tree, s.view.focus;
      assert allocated(Nodes(t)) && allocated(Panes(t));
      MoveStep(s, MoveOp(d));
      Inside(t, f);
      Inside(t, MovedFocus(s.view, d));
      MovedNode(s.view, d);
      var oldActiveLeaf := tree.activeLeaf;
      label Start:
      tree.MoveActive(d);
      RemarkedTo(Panes(t), old(tree.Active()), tree.Active(), old(MarkedAmong(Panes(t))), MarkedAmong(Panes(t)));
      if tree.activeLeaf == oldActiveLeaf {
        assert old@Start(Laid(t, Area())) == Laid(t, Area());
        return false;
      }
      RecalculateLayout();
      return true;
    }

    /** activateLeaf (texel/workspace_navigation.go:111-135). */
    method ActivateLeaf(node: Node, ghost p: Path) returns (moved: bool)
      requires Valid() && LeafPath(tree.view.value.tree, p) && At(tree.view.value.tree, p).node == node
      modifies Repr()
      ensures Valid() && Now() == Step(old(Now()), FocusOp(p))
      ensures moved <==> p != old(Now()).view.focus
    {
      hide Rep, HasPath, At, WellFormed, Distinct, Nodes, Panes, Laid, MarkedAmong;
      ghost var t, f := tree.view.value.tree, tree.view.value.focus;
      assert allocated(Nodes(t)) && allocated(Panes(t));
      NodeAtOnePath(t, p, f);
      LeafField(t, p);
      LeafField(t, f);
      Inside(t, p);
      Inside(t, f);
      MarkedIs(t, tree.Active());
      if tree.activeLeaf == node { return false; }
      label Start:
      tree.activeLeaf.pane.isActive := false;
      tree.activeLeaf := node;
      tree.view := Some(View(t, p));
      node.pane.isActive := true;
      assert old@Start(Rep(t, null)) == Rep(t, null);
      assert old@Start(Laid(t, Area())) == Laid(t, Area());
      MarkedIs(t, node.pane);
      return true;
    }

    /** SwapActivePane (texel/workspace_navigation.go:280-290). */
    method SwapActivePane(d: Direction)
      requires Valid()
      modifies Repr()
      ensures Valid() && (d.DirNone? ==> Now() == old(Now()))
      ensures !d.DirNone? ==> Now() == Step(old(Now()), SwapOp(d))
      ensures tree.Active() == old(tree.Active())
    {
      hide Rep, HasPath, At, WellFormed, Distinct, Nodes, Panes, Laid, MarkedAmong, Swapped;
      if d == DirNone { return; }
      ghost var s := Now();
      SwapStep(s, SwapOp(d));
      SwapKeepsGrip(s, d);
      SwappedSound(s.view, d);
      Inside(s.view.tree, s.view.focus);
      MarkedIs(s.view.tree, tree.Active());
      tree.SwapActivePane(d);
      Inside(tree.view.value.tree, tree.view.value.focus);
      MarkedIs(tree.view.value.tree, tree.Active());
      RecalculateLayout();
    }

    /** Store new ratios for the group at q and lay the tree out again. */
    method Reshare(node: Node, rs: seq<real>, ghost q: Path)
      requires Valid() && HasPath(tree.view.value.tree, q) && At(tree.view.value.tree, q).Branch?
      requires At(tree.view.value.tree, q).node == node && |rs| == |At(tree.view.value.tree, q).kids| && Fits(rs)
      modifies Repr()
      ensures Valid()
      ensures var s := old(Now()); Now() == s.(view := View(SetRatios(s.view.tree, q, rs), s.view.focus))
    {
      hide Rep, HasPath, At, WellFormed, Distinct, Nodes, Panes, Laid, MarkedAmong, SetRatios;
      ghost var s := Now();
      ghost var t, f := s.view.tree, s.view.focus;
      ghost var t' := SetRatios(t, q, rs);
      assert allocated(Nodes(t)) && allocated(Panes(t));
      Inside(t, q);
      RatiosStep(s, q, rs);
      SetRatiosKeeps(t, q, rs);
      SetRatiosRoot(t, q, rs);
      if grip.Some? { SetRatiosGroups(t, q, rs, grip.value); }
      label Start:
      StoreRatios(node, rs, t, q);
      assert old@Start(MarkedAmong(Panes(t))) == MarkedAmong(Panes(t));
      label Stored:
      tree.view := Some(View(t', f));
      assert old@Stored(Rep(t', null)) == Rep(t', null);
      RecalculateLayout();
    }

    /** A frame of a layout animation reaches the tree (texel/desktop_engine_core.go:1225-1231). */
    method ApplyFrame(node: Node, rs: seq<real>, ghost q: Path)
      requires Valid() && Enabled(Now(), FrameOp(q, rs)) && At(tree.view.value.tree, q).node == node
      modifies Repr()
      ensures Valid() && Now() == Step(old(Now()), FrameOp(q, rs))
    {
      hide Rep, HasPath, At, WellFormed, Distinct, Nodes, Panes, Laid, MarkedAmong, SetRatios;
      Reshare(node, rs, q);
    }

    /** adjustBorder (texel/workspace_layout.go:552-597): one cell per key press. */
    method AdjustBorder(border: Border, d: Direction) returns (panic: bool)
      requires Valid() && resizeSelection == Some(border)
      modifies Repr()
      ensures Valid() && (panic <==> !Enabled(old(Now()), KeyOp(d)))
      ensures panic ==> Now() == old(Now())
      ensures !panic ==> Now() == Step(old(Now()), KeyOp(d))
    {
      hide Rep, HasPath, At, WellFormed, Distinct, Nodes, Panes, Laid, MarkedAmong, SetRatios, Names, Shift;
      ghost var s := Now();
      ghost var t := s.view.tree;
      SelectedFields();
      NamesExactly(s);
      ghost var named := Names(t, border);
      ghost var q := if named then Selected(s).at else [];
      if named {
        KeyedFits(t, Selected(s), d, Area());
        SetSameRatios(t, q);
      }
      assert allocated(Nodes(t)) && allocated(Panes(t));
      label Start:
      var moved, rs;
      panic, moved, rs := PressKey(border, d, width, height);
      assert old@Start(Valid()) == Valid();
      if moved { Reshare(border.node, rs, q); }
    }

    /** The selected node holds the fields the machine has for it, in the tree or out of it. */
    lemma {:induction false} SelectedFields()
      requires Valid() && resizeSelection.Some?
      ensures var n, g := resizeSelection.value.node, SelectedGroup(Now());
        n.split == g.split && n.ratios == g.ratios
    {
      hide HasPath, At, WellFormed, Distinct, Nodes, Panes, Laid, MarkedAmong, Names;
      if detached.None? { SplitField(tree.view.value.tree, GroupAt(tree.view.value.tree, resizeSelection.value.node)); }
    }

    /** handleInteractiveResize (texel/workspace_layout.go:542-550): the first key
        selects a border, the others move it. */
    method HandleInteractiveResize(d: Direction) returns (panic: bool)
      requires Valid()
      modifies Repr()
      ensures Valid() && (panic <==> !Enabled(old(Now()), KeyOp(d)))
      ensures panic ==> Now() == old(Now())
      ensures !panic ==> Now() == Step(old(Now()), KeyOp(d))
    {
      hide Rep, HasPath, At, WellFormed, Distinct, Nodes, Panes, Laid, MarkedAmong, SetRatios, BorderOf, Names;
      if resizeSelection == None {
        ghost var s, t := Now(), tree.view.value.tree;
        assert allocated(Nodes(t)) && allocated(Panes(t));
        label Start:
        var border := FindBorder(tree.activeLeaf, d, t, tree.view.value.focus);
        assert old@Start(Valid()) == Valid();
        if border.Some? { FirstKey(s, d); }
        resizeSelection := border;
        assert old@Start(Rep(t, null)) == Rep(t, null) && old@Start(Laid(t, Area())) == Laid(t, Area());
        assert old@Start(MarkedAmong(Panes(t))) == MarkedAmong(Panes(t));
        return false;
      }
      panic := AdjustBorder(resizeSelection.value, d);
    }

    /** Leaving control mode lets the selection go (texel/desktop_engine_control_mode.go:17-20). */
    method ClearResizeSelection()
      requires Valid()
      modifies this`resizeSelection, this`detached
      ensures Valid() && Now() == Step(old(Now()), LeaveOp)
    {
      hide Rep, HasPath, At, WellFormed, Distinct, Nodes, Panes, Laid, MarkedAmong;
      ghost var t := tree.view.value.tree;
      assert allocated(Nodes(t)) && allocated(Panes(t));
      label Start:
      resizeSelection, detached := None, None;
      assert old@Start(Rep(t, null)) == Rep(t, null) && old@Start(Laid(t, Area())) == Laid(t, Area());
      assert old@Start(MarkedAmong(Panes(t))) == MarkedAmong(Panes(t));
    }

    /** updateMouseResize and adjustBorderToX/Y (texel/workspace_navigation.go:231-246). */
    method UpdateMouseResize(x: int, y: int)
      requires Valid()
      modifies Repr()
      ensures Valid() && Now() == Step(old(Now()), DragOp(x, y))
    {
      hide Rep, HasPath, At, WellFormed, Distinct, Nodes, Panes, Laid, MarkedAmong, SetRatios, RectAt, Drag;
      if mouseResizeBorder.None? { return; }
      ghost var t, b := tree.view.value.tree, grip.value;
      ghost var r := Area();
      var border := mouseResizeBorder.value;
      assert allocated(Nodes(t)) && allocated(Panes(t));
      SplitField(t, b.at);
      DraggedFits(t, b.at, b.index, r, x, y);
      label Start:
      var rs;
      match border.node.split {
        case Vertical => rs := DragToX(border, x, t, b.at, r);
        case Horizontal => rs := DragToY(border, y, t, b.at, r);
      }
      assert old@Start(Valid()) == Valid();
      Reshare(border.node, rs, b.at);
    }

    /** borderAt (texel/workspace_navigation.go:179-209). */
    method BorderAt(x: int, y: int) returns (border: Option<Border>, ghost p: Path)
      requires Valid()
      ensures border == Pointed(Now(), x, y)
      ensures !Area().Holds(x, y) ==> border == None
      ensures Area().Holds(x, y) ==>
        && LeafPath(tree.view.value.tree, p)
        && RectAt(tree.view.value.tree, p, Area()).Holds(x, y)
        && border == BorderUnder(tree.view.value.tree, p, RectAt(tree.view.value.tree, p, Area()), x, y)
    {
      hide Rep, HasPath, At, WellFormed, Distinct, Nodes, Panes, Laid, MarkedAmong, RectAt, Crossing, Pointed;
      ghost var t, r := tree.view.value.tree, Area();
      assert allocated(Nodes(t)) && allocated(Panes(t));
      label Start:
      var node;
      node, p := FindLeafAt(tree.root, x, y, t, null, r);
      PointedIs(Now(), p, x, y);
      if node == null { return None, p; }
      LaidLeaf(t, p, r);
      LeafField(t, p);
      Inside(t, p);
      var q := node.pane;
      ghost var a := RectAt(t, p, r);
      assert old@Start(Rep(t, null)) == Rep(t, null);
      border := None;
      if x == q.absX0 {
        border := BorderForNeighbor(node, DirLeft, t, p);
        if border != None { return; }
      }
      if x == q.absX1 - 1 {
        assert old@Start(Rep(t, null)) == Rep(t, null);
        border := BorderForNeighbor(node, DirRight, t, p);
        if border != None { return; }
      }
      if y == q.absY0 {
        assert old@Start(Rep(t, null)) == Rep(t, null);
        border := BorderForNeighbor(node, DirUp, t, p);
        if border != None { return; }
      }
      if y == q.absY1 - 1 {
        assert old@Start(Rep(t, null)) == Rep(t, null);
        border := BorderForNeighbor(node, DirDown, t, p);
        if border != None { return; }
      }
      return None, p;
    }

    /** handleMouseResize (texel/workspace_navigation.go:248-278). */
    method HandleMouseResize(x: int, y: int, buttonDown: bool, prevDown: bool)
      returns (consumed: bool, ghost op: Option<Op>)
      requires Valid()
      modifies Repr()
      ensures Valid()
      ensures match op
        case None => Now() == old(Now())
        case Some(o) => Enabled(old(Now()), o) && Now() == Step(old(Now()), o)
      ensures var s := old(Now());
        if s.grip.Some? then
          consumed && op == (if buttonDown then Some(DragOp(x, y)) else if prevDown then Some(ReleaseOp) else None)
        else
          && (consumed <==> op.Some?) && (op.Some? <==> buttonDown && !prevDown && Pointed(s, x, y).Some?)
          && (op.Some? ==>
                && op.value.GrabOp? && GripOn(s.view.tree, op.value.border)
                && Pointed(s, x, y) == Some(Border(At(s.view.tree, op.value.border.at).node, op.value.border.index)))
    {
      hide Rep, HasPath, At, WellFormed, Distinct, Nodes, Panes, Laid, MarkedAmong, RectAt, Crossing, Pointed,
        BorderUnder;
      ghost var t := tree.view.value.tree;
      op := None;
      if mouseResizeBorder.Some? {
        if buttonDown {
          op := Some(DragOp(x, y));
          UpdateMouseResize(x, y);
        } else if prevDown {
          op := Some(ReleaseOp);
          FinishMouseResize();
        }
        return true, op;
      }
      if !(buttonDown && !prevDown) { return false, op; }
      assert allocated(Nodes(t)) && allocated(Panes(t));
      label Start:
      var border, p := BorderAt(x, y);
      assert old@Start(Valid()) == Valid();
      if border == None { return false, op; }
      ghost var b := GripUnder(t, p, RectAt(t, p, Area()), x, y);
      op := Some(GrabOp(b));
      StartMouseResize(border.value, b);
      return true, op;
    }
  }

  /** The arithmetic of adjustBorder (texel/workspace_layout.go:552-590), with its indexing. */
  method PressKey(border: Border, d: Direction, width: int, height: int)
    returns (panic: bool, moved: bool, rs: seq<real>)
    requires border.index >= 0
    ensures panic <==> KeyPanics(Divider(border.node.split, border.node.ratios), border.index, d)
    ensures rs == Pressed(Divider(border.node.split, border.node.ratios), border.index, d, Rect(0, 0, width, height))
    ensures moved ==> !panic && border.index + 1 < |border.node.ratios|
    ensures !moved ==> rs == border.node.ratios
  {
    var node := border.node;
    panic, moved, rs := false, false, node.ratios;
    if !(((d == DirLeft || d == DirRight) && node.split == Vertical)
         || ((d == DirUp || d == DirDown) && node.split == Horizontal)) {
      return;
    }
    var leftPaneIndex, rightPaneIndex := border.index, border.index + 1;
    var growerIndex, shrinkerIndex := rightPaneIndex, leftPaneIndex;
    if d == DirRight || d == DirDown {
      growerIndex, shrinkerIndex := leftPaneIndex, rightPaneIndex;
    }
    if shrinkerIndex >= |node.ratios| { return true, false, rs; }
    if node.ratios[shrinkerIndex] <= MinRatio { return; }
    var totalSize := if node.split == Vertical then width else height;
    var transferAmount := 1.0 / Max(totalSize, 1) as real;
    if node.ratios[shrinkerIndex] - transferAmount < MinRatio {
      transferAmount := node.ratios[shrinkerIndex] - MinRatio;
    }
    if transferAmount <= 0.0 { return; }
    if growerIndex >= |node.ratios| { return true, false, rs; }
    rs := rs[growerIndex := rs[growerIndex] + transferAmount];
    rs := rs[shrinkerIndex := rs[shrinkerIndex] - transferAmount];
    moved := true;
  }

  /** The border taken hold of at a point of the leaf at p. */
  ghost function BorderUnder(t: Shape, p: Path, a: Rect, x: int, y: int): Option<Border>
    requires HasPath(t, p)
  {
    if x == a.x && BorderOf(t, p, DirLeft).Some? then BorderOf(t, p, DirLeft)
    else if x == a.x + a.w - 1 && BorderOf(t, p, DirRight).Some? then BorderOf(t, p, DirRight)
    else if y == a.y && BorderOf(t, p, DirUp).Some? then BorderOf(t, p, DirUp)
    else if y == a.y + a.h - 1 then BorderOf(t, p, DirDown)
    else None
  }

  /** The border a press at (x, y) takes hold of: that of the leaf holding the point, if any. */
  ghost function Pointed(s: State, x: int, y: int): Option<Border>
    requires Inv(s)
  {
    if p :| LeafPath(s.view.tree, p) && RectAt(s.view.tree, p, s.area).Holds(x, y)
    then BorderUnder(s.view.tree, p, RectAt(s.view.tree, p, s.area), x, y)
    else None
  }

  /** One leaf holds a point of the area, and none any other point. */
  lemma {:induction false} PointedIs(s: State, p: Path, x: int, y: int)
    requires Inv(s)
    ensures !s.area.Holds(x, y) ==> Pointed(s, x, y) == None
    ensures LeafPath(s.view.tree, p) && RectAt(s.view.tree, p, s.area).Holds(x, y) ==>
      Pointed(s, x, y) == BorderUnder(s.view.tree, p, RectAt(s.view.tree, p, s.area), x, y)
  {
    hide HasPath, At, WellFormed, Distinct, RectAt, BorderUnder;
    var t := s.view.tree;
    forall q | LeafPath(t, q) && RectAt(t, q, s.area).Holds(x, y)
      ensures s.area.Holds(x, y)
      ensures LeafPath(t, p) && RectAt(t, p, s.area).Holds(x, y) ==> q == p
    {
      RectWithin(t, q, s.area);
      if LeafPath(t, p) && RectAt(t, p, s.area).Holds(x, y) { LeavesDisjoint(t, p, q, s.area, x, y); }
    }
  }

  /** The direction in which that border was looked for. */
  ghost function Looked(t: Shape, p: Path, a: Rect, x: int, y: int): Direction
    requires HasPath(t, p)
  {
    if x == a.x && BorderOf(t, p, DirLeft).Some? then DirLeft
    else if x == a.x + a.w - 1 && BorderOf(t, p, DirRight).Some? then DirRight
    else if y == a.y && BorderOf(t, p, DirUp).Some? then DirUp
    else DirDown
  }

  /** Where in the tree that border is. */
  lemma {:induction false} GripUnder(t: Shape, p: Path, a: Rect, x: int, y: int) returns (b: Grip)
    requires HasPath(t, p) && BorderUnder(t, p, a, x, y).Some?
    ensures GripOn(t, b) && BorderUnder(t, p, a, x, y) == Some(Border(At(t, b.at).node, b.index))
    ensures var d := Looked(t, p, a, x, y);
      exists c :: Crosses(t, p, d, c) && b == Grip(c.at, c.Index())
  {
    hide HasPath, At, Crossing;
    var d := Looked(t, p, a, x, y);
    CrossingOnPath(t, p, d);
    var c := Crossing(t, p, d).value;
    b := Grip(c.at, c.Index());
  }

  /** The pointer is in the outermost cells of a on side d. */
  predicate OnSide(a: Rect, d: Direction, x: int, y: int) {
    match d
    case DirLeft => x == a.x
    case DirRight => x == a.x + a.w - 1
    case DirUp => y == a.y
    case DirDown => y == a.y + a.h - 1
    case DirNone => false
  }

  /** A leaf lies beyond that side. */
  ghost predicate Reaches(t: Shape, p: Path, a: Rect, d: Direction, x: int, y: int)
    requires HasPath(t, p)
  {
    OnSide(a, d, x, y) && Neighbor(t, p, d).Some?
  }

  /**
   * A press takes hold of a border exactly when the pointer is in the outermost
   * cells of its leaf on a side with a neighbour; a side border goes before one
   * above or below, left before right and above before below.
   */
  lemma {:induction false} GrabbedExactly(t: Shape, p: Path, a: Rect, x: int, y: int)
    requires HasPath(t, p)
    ensures BorderUnder(t, p, a, x, y).Some? <==>
      || Reaches(t, p, a, DirLeft, x, y) || Reaches(t, p, a, DirRight, x, y)
      || Reaches(t, p, a, DirUp, x, y) || Reaches(t, p, a, DirDown, x, y)
    ensures BorderUnder(t, p, a, x, y).Some? ==>
      exists d, c ::
        && Reaches(t, p, a, d, x, y) && Crosses(t, p, d, c)
        && BorderUnder(t, p, a, x, y) == Some(Border(At(t, c.at).node, c.Index()))
        && (d.DirUp? || d.DirDown? ==> !Reaches(t, p, a, DirLeft, x, y) && !Reaches(t, p, a, DirRight, x, y))
        && (d.DirRight? ==> !Reaches(t, p, a, DirLeft, x, y)) && (d.DirDown? ==> !Reaches(t, p, a, DirUp, x, y))
  {
    hide HasPath, At, Crossing;
    if BorderUnder(t, p, a, x, y).Some? {
      var d := Looked(t, p, a, x, y);
      CrossingOnPath(t, p, d);
      assert Crosses(t, p, d, Crossing(t, p, d).value) && Reaches(t, p, a, d, x, y);
    }
  }

  /** The coordinate at which child index + 1 of the group begins. */
  ghost function BorderLine(t: Shape, b: Grip, r: Rect): int
    requires WellFormed(t) && GripOn(t, b) && HasPath(t, b.at + [b.index + 1])
  {
    var near := RectAt(t, b.at + [b.index + 1], r);
    if At(t, b.at).split.Vertical? then near.x else near.y
  }

  /** The border taken hold of runs through the pointer's cell: the pointer is on either side of its line. */
  lemma {:induction false} PointerOnBorder(t: Shape, p: Path, r: Rect, x: int, y: int) returns (b: Grip)
    requires WellFormed(t) && LeafPath(t, p) && r.Proper() && RectAt(t, p, r).Holds(x, y)
    requires BorderUnder(t, p, RectAt(t, p, r), x, y).Some?
    ensures GripOn(t, b) && HasPath(t, b.at + [b.index + 1])
    ensures BorderUnder(t, p, RectAt(t, p, r), x, y) == Some(Border(At(t, b.at).node, b.index))
    ensures BorderLine(t, b, r) - 1 <= (if At(t, b.at).split.Vertical? then x else y) <= BorderLine(t, b, r)
  {
    hide HasPath, At, Crossing, RectAt, BorderOf, WellFormed;
    var a := RectAt(t, p, r);
    b := GripUnder(t, p, a, x, y);
    var d := Looked(t, p, a, x, y);
    var c :| Crosses(t, p, d, c) && b == Grip(c.at, c.Index());
    CrossingMeets(t, p, d, r, c);
    if !Forward(d) { ChildrenMeet(t, c.at, c.from, r, d); }
  }

  /** Adjacent children of the group at q share an edge. */
  lemma {:induction false} ChildrenMeet(t: Shape, q: Path, i: nat, r: Rect, d: Direction)
    requires WellFormed(t) && r.Proper() && Spot(t, q, i)
    requires Sibling(d, At(t, q).split, i, |At(t, q).kids|).Some?
    ensures var j := Sibling(d, At(t, q).split, i, |At(t, q).kids|).value;
      && HasPath(t, q + [i]) && HasPath(t, q + [j])
      && Side(RectAt(t, q + [i], r), d) == Side(RectAt(t, q + [j], r), Opposite(d))
  {
    var g := At(t, q);
    var j := Sibling(d, g.split, i, |g.kids|).value;
    Inside(t, q);
    PathStep(t, q, i);
    PathStep(t, q, j);
    RectWithin(t, q, r);
    ChildRectAt(t, q, i, r);
    ChildRectAt(t, q, j, r);
    SiblingsMeet(g, RectAt(t, q, r), i, d);
  }

  lemma {:induction false} LaidLeaf(t: Shape, p: Path, r: Rect)
    requires WellFormed(t) && LeafPath(t, p) && Laid(t, r)
    ensures var a, q := RectAt(t, p, r), At(t, p).pane;
      q.absX0 == a.x && q.absY0 == a.y && q.absX1 == a.x + a.w && q.absY1 == a.y + a.h
  {
    LaidAt(t, p, r);
  }

  lemma {:induction false} SetRatiosRoot(t: Shape, q: Path, rs: seq<real>)
    requires HasPath(t, q) && At(t, q).Branch?
    ensures SetRatios(t, q, rs).node == t.node
  {
    PutAt(t, q, At(t, q).(ratios := rs));
  }

  lemma {:induction false} SwapKeepsGrip(s: State, d: Direction)
    requires Inv(s)
    ensures s.grip.Some? ==> var q := s.grip.value.at; var w := Swapped(s.view, d);
      HasPath(w.tree, q) && At(w.tree, q).node == At(s.view.tree, q).node
  {
    if s.grip.Some? && Neighbor(s.view.tree, s.view.focus, d).Some? {
      var m, q := Neighbor(s.view.tree, s.view.focus, d).value, s.grip.value.at;
      NeighborIsLeaf(s.view.tree, s.view.focus, d);
      var x, y := At(s.view.tree, s.view.focus).pane, At(s.view.tree, m).pane;
      SwapAt(s.view.tree, x, y, q);
      SwapNodes(At(s.view.tree, q), x, y);
    }
  }

  lemma {:induction false} ClosingGroup(t: Shape, p: Path)
    requires Rep(t, null) && Removable(t, p)
    ensures var g := At(t, Init(p)); g.Branch? && g.node.split == g.split && g.node.ratios == g.ratios
  {
    SplitField(t, Init(p));
  }

  lemma {:induction false} HeldApart(s: State)
    requires Inv(s) && s.detached.Some?
    ensures s.selection.Some? && s.selection.value.node !in Nodes(s.view.tree)
  {
  }

  lemma PathRoot(t: Shape)
    ensures HasPath(t, []) && At(t, []) == t
  {
  }

  /** Focus lands on another node exactly when there is a neighbour. */
  lemma {:induction false} MovedNode(v: View, d: Direction)
    requires Sound(v)
    ensures LeafPath(v.tree, MovedFocus(v, d))
    ensures Neighbor(v.tree, v.focus, d).Some? <==> At(v.tree, MovedFocus(v, d)).node != At(v.tree, v.focus).node
  {
    if Neighbor(v.tree, v.focus, d).Some? {
      NeighborIsLeaf(v.tree, v.focus, d);
      NodeAtOnePath(v.tree, MovedFocus(v, d), v.focus);
    }
  }

  lemma {:induction false} RemarkedTo(s: set<Pane>, x: Pane, y: Pane, before: set<Pane>, after: set<Pane>)
    requires before == {x} && Remarked(s, x, y, before, after)
    ensures after == {y}
  {
  }
}
