# Texelation: verified core

Texelation is a text desktop: a server keeps, for each workspace, a tree of
tiled panes and sends their contents over a framed binary protocol to a client
that caches and draws them. This project models the parts of it whose
correctness is decided by the code alone, and proves what they promise.

**The tiling tree.** `PaneTree` has the source's mutable `Node` and `Pane`
objects (parent pointers, children, ratios) and the immutable `Shape` that can
be read off them; `Rep` ties the two together. `Layout` is the integer layout,
`Navigation` the arrow keys and border lookup, `Edits` the split, removal, swap
and ratio changes, `Borders` the keyboard and mouse border moves, `SplitGuard`
the guard in front of a split, `Transitions` the layout animations. These are
functions with their theorems. A group's ratios are never negative and never sum
to more than 1, which is what the layout needs; they sum to 1 until a removal
takes all the width its group has left. `TreeHeap`, `RemoveHeap`, `BorderHeap` and
`Workspaces` are the source's methods on the heap, each proved to perform
exactly one step of the state machine in `Runs`, whose runs keep the invariant
of the tree and conserve its panes. `StepLaws` says what each step does to the
tree and on the screen, in terms of nothing but the two states. `Animations` carries the layout animations
through that machine: an animated split ends as the split alone does, an animated
removal too, except that the survivors' shares come out equal. `RunExamples` has
runs that end where a promise fails. `Snapshots` captures all workspaces into one pane list and
rebuilds them.

**The wire protocol.** `Bytes` has little-endian integers and counted lists.
`BufferDeltas` and `TreeSnapshots` define a writer and a reader as functions and
prove exactly when they undo each other; `DeltaCodec` and `SnapshotCodec` are
the buffer-writing and slice-consuming loops, proved equal to them. `Framing`
is the stream of length-prefixed, checksummed messages. `WireLayout` says which
bytes of a delta, a snapshot and a frame make up which field.

**The client.** `SpanPaint` is the painting of spans, proved last-writer-wins;
`PaneCaches` the sparse row cache, proved to hold what the message log says;
`BufferCaches` the screen-row cache and its agreement with the former.

**The scroll bar.** `Minimap` is the background recomputation as interleaved
critical sections; `Thumb` is the thumb arithmetic.

Conventions. Split ratios, easing and thumb arithmetic are exact reals; the
source computes them in float64. Rectangles are integers. A float32 on the wire
is its 32 bits, a string its bytes. Bytes to runes, style entries to terminal
styles, and the CRC are parameters about which nothing is assumed. Go's run-time
error on an index out of range is the error value `Panic`.

Where the code does not do what its surroundings promise, the code is modelled
and the exact condition proved:

- going left or up and back right or down need not return to the pane one left:
  `Navigation.NavigationReverses`, with a run in
  `RunExamples.LeftThenRightCanStayRun`;
- removing the only pane with any width leaves its group's ratios summing to
  zero: `Runs.StepKeepsFilled`, with a run in `RunExamples.RunCanUnfill`;
- the keyboard's border selection can outlive the border
  (`Runs.RemoveKeepsSelection`), after which a key press can index a ratio that is
  not there: `Runs.KeyPanicsExactly`, with a run in
  `RunExamples.SelectionCanBeLost`;
- a curve that overshoots can send negative shares in a split animation:
  `Transitions.SplitFrameExactly`, `Transitions.SplitOvershootExactly`, with the
  spring curve's value at a fifth of the duration in
  `Transitions.SpringTickExactly`;
- a style whose foreground is a gradient can send the delta decoder past the end
  of its input: `BufferDeltas.DecodePanicsExactly`, with a payload in
  `BufferDeltas.DecodeCanPanic`;
- strings are refused by the snapshot decoder when the number of bytes left,
  taken modulo 65,536, is below their length: `TreeSnapshots.RoundTripExactly`,
  with a snapshot in `TreeSnapshots.SmallBoundIsTight`;
- a node of 65,536 children is written as a leaf: `TreeSnapshots.RoundTripExactly`,
  with `TreeSnapshots.WideTreeIsLost`;
- the client caches can differ on a delta that names a row twice:
  `BufferCaches.CachesAgreeExactly`, with a delta in `BufferCaches.CachesCanDiffer`;
- an eviction whose margins run past 64 bits drops rows of its own window:
  `PaneCaches.EvictKeepsWindow`;
- a minimap marked valid can have a height other than the bar's:
  `Minimap.ValidHeightExactly`, with a run in `Minimap.ValidCacheCanHaveOldHeight`.

## Model

| member | source | states |
|---|---|---|
| `Ratios.NormalisedFills` | texel/workspace_layout.go:147-155 | renormalising keeps proportions, and the result sums to 1 exactly when the old total is positive |
| `Layout.LayoutTiles` | texel/tree.go:429-508 | for every tree and area the leaf rectangles lie inside it, cover it and do not overlap |
| `Layout.LeavesDisjoint` | texel/tree.go:429-508 | no cell belongs to two leaves |
| `Layout.LeavesCover` | texel/tree.go:429-508 | every cell of the area belongs to a leaf |
| `Layout.OffsetBound` | texel/tree.go:457-481 | truncated shares never exceed the exact ones, so the last child's rest is not negative |
| `Layout.FindSpan` | texel/tree.go:457-481 | every position along a split lies in exactly one child |
| `Navigation.NeighborAdjacent` | texel/tree.go:275-316 | right and down reach a leaf that begins where the active one ends; left and up the first leaf of a subtree that ends where it begins |
| `Navigation.StopsAtTheEdge` | texel/tree.go:275-316 | with no empty leaf, there is no neighbour exactly when the leaf touches that edge of the area |
| `Navigation.CrossingMeets` | texel/tree.go:275-316 | the sibling subtree a climb ends at shares an edge with the leaf the climb started from |
| `Navigation.NavigationReverses` | texel/tree.go:275-329 | the way back leads to the first leaf of the subtree one came from: always after right and down, after left and up exactly when no split on the entered subtree's first chain runs along the direction |
| `Navigation.BackFrom` | texel/tree.go:275-329 | otherwise the way back stays inside the entered subtree |
| `Navigation.LeftThenRightCanStay` | texel/tree.go:275-329 | in a group inside a group along one direction, left then right does not come back |
| `RunExamples.LeftThenRightCanStayRun` | texel/tree.go:275-329 | a run from one pane after which left and then right focus another pane than before |
| `Edits.SplitLeaves` | texel/tree.go:113-158 | a split puts the new pane right after the active one, or at the end of the group it joins, and keeps all others in order |
| `Edits.SplitKeeps` | texel/tree.go:81-167 | a split keeps the tree well-formed and free of sharing, adds exactly the new pane and focuses its leaf |
| `Edits.RemoveLeaves` | texel/workspace_layout.go:90-163 | removal deletes one pane and keeps the order of all others, also when the group collapses |
| `Edits.RemoveKeeps` | texel/workspace_layout.go:90-163 | the nodes and panes left are the old ones but the leaf's, and the group's when it collapses |
| `Edits.SurvivorRatios` | texel/workspace_layout.go:118-155 | the survivors' ratios are the old ones in proportion and sum to 1 when these have a positive total, and the old ones otherwise |
| `Edits.RemoveKeepsForm` | texel/workspace_layout.go:90-163 | every removal keeps the tree well-formed; at least one child is always left, so the branch for none is never taken |
| `Edits.RemoveKeepsFilled` | texel/workspace_layout.go:118-155 | removal keeps every group summing to 1 exactly when the group collapses or the other ratios have a positive total |
| `RunExamples.RunCanUnfill` | texel/workspace_layout.go:147-155 | a run of splits, drags and closes from one pane after which the two panes left have ratio 0 each |
| `Edits.MovedFinds` | texel/workspace_layout.go:131-144 | every other leaf is found again at the path the removal moves it to |
| `Edits.NextFocusIsLeaf` | texel/workspace_layout.go:156-162 | the leaf that gets focus after a removal exists in the new tree |
| `Edits.SwapKeeps` | texel/tree.go:235-245 | exchanging two panes keeps the tree well-formed and free of sharing, with the same panes and nodes |
| `Edits.SwapNeighbor` | texel/tree.go:275-316 | exchanging panes changes no neighbour |
| `Edits.SetRatiosKeeps` | texel/workspace_layout.go:319-358 | new ratios that fit the group keep the tree well-formed with the same panes and nodes |
| `Borders.ShiftKeeps` | texel/workspace_layout.go:552-597 | a keyboard resize keeps the total, touches two ratios only and never takes the shrinking one below a tenth |
| `Borders.ApplyBorderFills` | texel/workspace_layout.go:319-358 | ratios after a border move sum to 1 and are not negative, in all branches |
| `Borders.ApplyBorderExact` | texel/workspace_layout.go:319-358 | the two children get exactly their shares, the others keep their proportions |
| `Borders.DragFills` | texel/workspace_layout.go:209-262 | whatever the pointer, a drag leaves ratios that fit, and they sum to 1 exactly when they did or the border could move |
| `Borders.DragLands` | texel/workspace_layout.go:209-262 | the left child gets exactly the clamped width, the right one at least its own, both at least the minimum, and for the first border the edge lands on the clamped pointer |
| `SplitGuard.EqualAllAtLeast` | texel/tree.go:457-481 | equal shares all reach a minimum exactly when the parent has room for that many |
| `SplitGuard.NewPairFits` | texel/workspace_layout.go:366-379 | the guard of a split is exactly what a new pair needs |
| `SplitGuard.JoinedGroupFits` | texel/workspace_layout.go:366-379 | for up to 21 equal panes of minimum 20 the guard suffices when joining the group |
| `SplitGuard.JoinedGroupBoundIsTight` | texel/tree.go:474-477 | with 22 panes over 439 cells the guard passes and a pane comes out too narrow |
| `SplitGuard.GuardExactly` | texel/workspace_layout.go:366-379 | the guard lets a split through exactly when the active pane is at least 40 cells wide or 16 high, which for a new pair is when both panes reach the minimum in the laid-out tree |
| `SplitGuard.SplitReachesMinimumExactly` | texel/tree.go:81-167 | after any split all panes of the group the new one is in reach the minimum in the laid-out tree exactly when the group is long enough for that many |
| `SplitGuard.SplitReachesMinimum` | texel/workspace_layout.go:366-379 | so they do after any split the guard lets through into a new group, or into an equal group that had at most one pane more than the minimum has cells |
| `TreeHeap.ResizeNode` | texel/tree.go:429-508 | gives every pane of the subtree its rectangle |
| `TreeHeap.NodeBounds` | texel/tree.go:350-387 | the union of a subtree's panes is the rectangle the subtree was laid out over |
| `TreeHeap.FindLeafAt` | texel/tree.go:541-557 | the leaf holding the point, nothing exactly when the point is outside |
| `TreeHeap.FindParentOf` | texel/tree.go:390-403 | searching from the root finds the node's parent pointer |
| `TreeHeap.FindFirstLeaf` | texel/tree.go:319-329 | returns the leaf at the end of the chain of first children |
| `TreeHeap.FindBorder` | texel/workspace_layout.go:502-534 | climbs to the same ancestor and index as navigation, and finds a border exactly when it finds a neighbour |
| `TreeHeap.BorderForNeighbor` | texel/workspace_navigation.go:137-177 | returns the same border as `TreeHeap.FindBorder` |
| `TreeHeap.SplitLeaf` | texel/tree.go:97-158 | the heap after a split represents the split tree |
| `TreeHeap.ExchangePanes` | texel/tree.go:241-241 | two leaves exchange panes and nothing else changes |
| `TreeHeap.Tree.SetRoot` | texel/tree.go:51-62 | one leaf holding the pane, focused |
| `TreeHeap.Tree.SplitActive` | texel/tree.go:81-167 | the tree becomes the split tree with focus and the active mark on the new pane; nothing without an active leaf |
| `TreeHeap.Tree.FindNeighbor` | texel/tree.go:275-316 | returns the node of the neighbour navigation defines, or nil when there is none |
| `TreeHeap.Tree.SwapActivePane` | texel/tree.go:235-245 | panes are exchanged and focus stays with the same pane |
| `TreeHeap.Tree.MoveActive` | texel/tree.go:248-259 | focus and the active mark move to the neighbour |
| `TreeHeap.SwappedSound` | texel/tree.go:235-245 | after a swap the focused pane is the one focused before |
| `RemoveHeap.Renormalise` | texel/workspace_layout.go:147-155 | the two loops compute the proportional ratios |
| `RemoveHeap.RemoveLeaf` | texel/workspace_layout.go:96-163 | the heap after doRemoveNode represents the tree without the leaf, and the leaf to focus next is in it |
| `BorderHeap.BorderRatios` | texel/workspace_layout.go:319-358 | the loops of applyBorderRatios compute the border move |
| `BorderHeap.DragToX` | texel/workspace_layout.go:209-262 | a drag computed from the bounds on the heap is the drag of the ratios and the group's rectangle |
| `BorderHeap.DragToY` | texel/workspace_layout.go:264-317 | the same for a horizontal border |
| `Runs.StepKeeps` | texel/workspace_layout.go:16-597 | every operation keeps the tree well-formed, free of sharing, focused on a leaf and its dragged border in place, and the selected group in the tree or left with one child's ratio |
| `Runs.RunsKeep` | texel/workspace_layout.go:16-597 | so does every run, removals that leave no width and key presses on a lost selection included, and the area is tiled after it |
| `Runs.RunsTile` | texel/tree.go:429-508 | the area is tiled after every operation of a legal run |
| `Runs.StepKeepsFilled` | texel/workspace_layout.go:90-597 | an operation on a tree whose groups all sum to 1 leaves such a tree exactly when it is not a removal that takes all the width its group has left |
| `Runs.RunKeepsFilled` | texel/workspace_layout.go:90-597 | over runs without such a removal all groups go on summing to 1 |
| `Runs.SelectedNames` | texel/workspace_layout.go:502-550 | the border a first key press selects is one of the tree |
| `Runs.RemoveKeepsSelection` | texel/workspace_layout.go:90-163 | the keyboard's selection outlives a removal exactly when the leaf is not in its group or a child is left after the border |
| `Runs.SelectionKept` | texel/workspace_layout.go:542-597 | and every other operation |
| `Runs.KeyPanicsExactly` | texel/workspace_layout.go:552-590 | a key press indexes past the ratios exactly when the border is lost and the key runs along the split, unless it is backward and there is at most a tenth to take; any other key press on a lost border changes nothing |
| `RunExamples.SelectionCanBeLost` | texel/workspace.go:304-311 | a run from one pane (split, select the border, lose the right pane) after which left and right index past the ratios and up and down do nothing |
| `Runs.StepConserves` | texel/workspace_layout.go:16-597 | each operation changes the set of panes by exactly those it opens and closes, and focus changes pane only where it should |
| `Runs.RunConserves` | texel/workspace_layout.go:16-597 | over any run no pane is lost that was not closed and none appears that was not opened |
| `StepLaws.SplitPlaces` | texel/tree.go:81-167 | a split puts the new pane last into a group that runs the same way with ratios within 0.001, shared equally, and else makes two halves in the place of the focused pane; focus goes to it and no other node changes |
| `StepLaws.RemovePlaces` | texel/workspace_layout.go:90-188 | a removal takes one child out: a group of two gives way to the other child, a larger one keeps its node, split and the rest in proportion; no other node changes and focus stays on its pane |
| `StepLaws.RemoveFocuses` | texel/workspace_layout.go:131-163 | when the focused pane is closed, focus goes to the next pane from left to right while its group has one there, and else to the first pane of the child before it |
| `StepLaws.MoveGoes` | texel/tree.go:248-259 | focus goes to the neighbour in that direction, if any, and nothing else changes |
| `StepLaws.SwapExchanges` | texel/tree.go:235-245 | the focused pane and its neighbour change places and focus follows; every other leaf keeps its pane and all keep their nodes; without a neighbour nothing changes |
| `StepLaws.FirstKeySelects` | texel/workspace_layout.go:502-550 | the first key press selects a border exactly when there is a neighbour that way: the one between the child with the focus and the child with the neighbour, at the edge of the focused pane |
| `StepLaws.KeyMoves` | texel/workspace_layout.go:552-597 | a key press along the split moves one cell of the area, or what is left above a tenth, between the two children of the selected border: right and down grow the first, left and up the second; nothing else changes |
| `StepLaws.KeyAcross` | texel/workspace_layout.go:552-556 | a key press across the split changes nothing |
| `StepLaws.DragMoves` | texel/workspace_layout.go:209-317 | after a drag the child before the border ends at the pointer, clamped to the minimum from both outer edges and measured from where it began; the first border of a group is at that very coordinate; other siblings keep their proportions |
| `StepLaws.DragTakesAll` | texel/workspace_layout.go:319-358 | when the other siblings have no share, the two children fill the group between them in the ratio of their cells |
| `StepLaws.DragStays` | texel/workspace_layout.go:228-231 | without a held border or without room a drag changes nothing |
| `StepLaws.FrameStores` | texel/desktop_engine_core.go:1225-1231 | a frame stores its ratios in its group and changes nothing else |
| `StepLaws.StepTouches` | texel/workspace_layout.go:16-597 | which of area, selection, held border and focus each operation leaves as they were |
| `Workspaces.Workspace.constructor` | texel/workspace.go:207-222 | a workspace starts as one active pane over its area |
| `Workspaces.Workspace.SetArea` | texel/workspace_layout.go:16-19 | the area changes and the tree is laid out over it |
| `Workspaces.Workspace.PerformSplit` | texel/workspace_layout.go:360-496 | splits exactly when the active pane is at least twice the minimum, and then performs the split step |
| `Workspaces.Workspace.Detach` | texel/workspace_layout.go:96-170 | the tree and its focus become those of the removal step, and a selected group that collapses keeps its split and its other ratio |
| `Workspaces.Workspace.DoRemoveNode` | texel/workspace_layout.go:90-188 | performs the removal step, with the only active mark on the pane that has focus |
| `Workspaces.Workspace.RemoveNode` | texel/workspace_layout.go:21-86 | removes a pane, or replaces the last one, and lets go of a dragged border |
| `Workspaces.Workspace.ReplaceRoot` | texel/workspace_layout.go:45-58 | a fresh pane takes the place of the last one |
| `Workspaces.Workspace.MoveActivePane` | texel/workspace_navigation.go:16-61 | performs the focus move and reports whether there was a neighbour |
| `Workspaces.Workspace.ActivateLeaf` | texel/workspace_navigation.go:111-135 | focus and the only active mark move to the leaf |
| `Workspaces.PressKey` | texel/workspace_layout.go:552-590 | the key press's new ratios, and whether it indexes past the ratios, over the node's own fields |
| `Workspaces.Workspace.SwapActivePane` | texel/workspace_navigation.go:280-290 | performs the swap and keeps the active pane |
| `Workspaces.Workspace.AdjustBorder` | texel/workspace_layout.go:552-597 | for any selection held, lost or not: indexes past the ratios exactly when the key step is not enabled, changing nothing then, and performs the key step otherwise |
| `Workspaces.Workspace.HandleInteractiveResize` | texel/workspace_layout.go:542-550 | the same for every key press; the first one selects the border navigation would cross |
| `Workspaces.Workspace.ClearResizeSelection` | texel/desktop_engine_control_mode.go:17-20 | the selection is let go |
| `Workspaces.Workspace.UpdateMouseResize` | texel/workspace_navigation.go:231-246 | performs the drag of the border taken hold of |
| `Workspaces.Workspace.BorderAt` | texel/workspace_navigation.go:179-209 | the border at the one leaf holding the point, in the order left, right, up, down; none outside the area |
| `Workspaces.PointerOnBorder` | texel/workspace_navigation.go:179-209 | the border found has its line on one side or the other of the pointer's cell |
| `Workspaces.GrabbedExactly` | texel/workspace_navigation.go:179-209 | a press takes hold of a border exactly when the pointer is in the outermost cells of its leaf on a side with a neighbour; side borders go first, left before right and above before below |
| `Workspaces.Workspace.HandleMouseResize` | texel/workspace_navigation.go:248-278 | with a border held every event is consumed, and drags or releases it; with none, a press takes hold of exactly the border at the pointer's leaf, and nothing else is consumed |
| `Workspaces.Workspace.StartMouseResize` | texel/workspace_navigation.go:211-221 | the border is held |
| `Workspaces.Workspace.FinishMouseResize` | texel/workspace_navigation.go:223-229 | the border is let go |
| `Workspaces.Workspace.ApplyFrame` | texel/desktop_engine_core.go:1225-1231 | an animation frame becomes the group's ratios and the tree is laid out again |
| `Transitions.FrameSum` | texel/layout_transitions.go:241-267 | for any easing the frame's sum is the blend of the sums at both ends |
| `Transitions.FrameFills` | texel/layout_transitions.go:241-267 | at eased progress within 0 and 1 a frame sums to 1 and is not negative |
| `Transitions.EaseMonotone` | texel/layout_transitions.go:284-306 | linear, smoothstep and ease-in-out rise from 0 to 1 without falling |
| `Transitions.EaseShapes` | texel/layout_transitions.go:284-306 | the polynomial curves are symmetric about the half, and smoothstep and ease-in-out start slower, in that order |
| `Transitions.CurveFrameFills` | texel/layout_transitions.go:241-267 | every frame under these curves lays out |
| `Transitions.TickFills` | texel/layout_transitions.go:222-281 | a tick sends the target or a blend; it keeps a total both ends share, and under the polynomial curves ratios between fitting ends fit |
| `Transitions.TickExactly` | texel/layout_transitions.go:222-281 | a tick ends an animation exactly when its time is up or a removal's child is thin enough, with the target; else every ratio has gone the eased part of its way |
| `Transitions.FrameFits` | texel/layout_transitions.go:241-267 | a frame between ratios that fit fits |
| `Transitions.RemovalOvershootFills` | texel/layout_transitions.go:254-266 | a removal's frames fit, and sum to 1 if both ends do, under any curve below fourfold, because early completion ends the animation first |
| `Transitions.SplitFrameExactly` | texel/workspace_layout.go:446-460 | a frame of a split to n panes has no negative share exactly when (n - 100)k <= n and (100 - n)k <= 99n for its eased progress k |
| `Transitions.SplitOvershootExactly` | texel/workspace_layout.go:446-460 | no frame up to an eased progress of m has one exactly when the same holds at m |
| `Transitions.SplitTickExactly` | texel/layout_transitions.go:241-267 | a tick of a split's animation fills the group exactly when it ends the animation or its eased progress meets that condition |
| `Transitions.SplitOvershootFills` | texel/layout_transitions.go:241-267 | so every tick does under a curve whose peak meets it |
| `Transitions.SpringTickExactly` | texel/layout_transitions.go:294-302 | at a fifth of the duration, where the spring curve is at 1 + 1/e, a split's frame has a negative share exactly for more than 100(e + 1) panes |
| `Transitions.RemovalTargets` | texel/layout_transitions.go:155-169 | targets are positive, sum to 1, leave a thousandth to the closing pane and share the rest equally |
| `Transitions.SplitStart` | texel/workspace_layout.go:446-460 | an animated split starts with a hundredth for the new pane and the rest shared equally: positive, summing to 1 |
| `Transitions.LayoutTransitionManager.Animate` | texel/layout_transitions.go:199-216 | the node's animation starts from its present ratios |
| `Transitions.LayoutTransitionManager.UpdateAnimations` | texel/layout_transitions.go:222-281 | one frame per animated node, and exactly the finished ones are forgotten |
| `Animations.AnimationRuns` | texel/desktop_engine_core.go:1225-1231 | frames of successive ticks that suit their group are a legal run with the area tiled throughout; an animation that ends changes the tree by its target ratios only |
| `Animations.TameFits` | texel/layout_transitions.go:222-281 | the ticks of all polynomial curves, of removals under a curve below fourfold and of splits that meet the condition send ratios that fit |
| `Animations.AnimatedSplit` | texel/workspace_layout.go:408-471 | the split, the initial ratios it stores and the frames are a legal run, tiled throughout; once the animation ends the state is what the split alone leaves |
| `Animations.AnimatedRemoval` | texel/workspace_layout.go:70-86 | the frames and then the removal are a legal run, tiled throughout; tree and focus are what the removal alone leaves, but the survivors of the group get equal shares |
| `Animations.ForgottenAtEnd` | texel/layout_transitions.go:222-281 | over successive ticks the manager keeps an animation unchanged until the tick that ends it, and forgets it then |
| `Snapshots.Collect` | texel/snapshot.go:302-323 | panes not listed yet are appended, listed ones keep their positions |
| `Snapshots.BuildTreeCapture` | texel/snapshot.go:714-736 | the capture has the tree's shape with pane positions for panes |
| `Snapshots.CaptureAll` | texel/snapshot.go:296-334 | all workspaces are captured into one list that holds every pane |
| `Snapshots.BuildNodes` | texel/snapshot_restore.go:259-312 | fresh nodes of the capture's shape with consistent parent pointers |
| `Snapshots.RestoredMirrors` | texel/snapshot_restore.go:259-312 | the rebuilt tree has the captured tree's shape, splits, ratios and leaf-to-pane assignment |
| `Snapshots.MirrorLayout` | texel/snapshot_restore.go:76-100 | and the same rectangles over every area |
| `Snapshots.MirrorDistinct` | texel/snapshot_restore.go:259-312 | it has no sharing |
| `Snapshots.MirrorsApart` | texel/snapshot_restore.go:76-100 | workspaces that shared no pane share none when restored |
| `Snapshots.RestoreWorkspace` | texel/snapshot_restore.go:76-100 | a restored workspace is a sound tree that mirrors the captured one, focused on its first leaf and laid out over its area; only its own panes are touched |
| `Snapshots.RestoreAll` | texel/snapshot_restore.go:57-100 | all workspaces are restored, each mirroring its own, and no two share a node or a pane |
| `Snapshots.CaptureAndRestore` | texel/snapshot.go:296-334 | capturing a desktop and rebuilding it gives all its workspaces back with new panes, and leaves the original as it was |
| `BufferDeltas.DecodeEncode` | protocol/buffer_delta.go:124-454 | decoding an encoded delta in normal form gives it back |
| `BufferDeltas.EncodeDecode` | protocol/buffer_delta.go:306-454 | an accepted payload decodes to a delta in normal form, with all style and row indices in range, and is its encoding |
| `BufferDeltas.DecodeEncodeCanon` | protocol/buffer_delta.go:124-454 | for every delta that encodes, decoding gives its canonical form |
| `BufferDeltas.RoundTripExactly` | protocol/buffer_delta.go:124-454 | and gives the delta itself exactly when it is in normal form |
| `BufferDeltas.SameEncoding` | protocol/buffer_delta.go:124-303 | two deltas have one encoding exactly when they have one canonical form |
| `BufferDeltas.EncodableExactly` | protocol/buffer_delta.go:135-300 | what the writer refuses: lists over their limits, style indices or decoration rows out of range, gradients over 255 stops |
| `BufferDeltas.RefusedBecause` | protocol/buffer_delta.go:124-304 | each of the encoder's errors has its reason in the delta |
| `BufferDeltas.AcceptedWithin` | protocol/buffer_delta.go:124-304 | what the encoder takes keeps within all its limits |
| `BufferDeltas.StylePanicsExactly` | protocol/buffer_delta.go:333-369 | a style is read past the end exactly when its gradient foreground leaves fewer than 22 bytes |
| `BufferDeltas.DecodePanicsExactly` | protocol/buffer_delta.go:323-372 | so is a payload exactly when its first unreadable style is such a one |
| `BufferDeltas.DecodeCanPanic` | protocol/buffer_delta.go:334-345 | a payload of 87 bytes that does |
| `DeltaCodec.EncodeBufferDelta` | protocol/buffer_delta.go:124-303 | the loops write exactly the encoding, or report the first check that fails |
| `DeltaCodec.DecodeBufferDelta` | protocol/buffer_delta.go:306-454 | the loops compute exactly the decoding |
| `DeltaCodec.AppendStyles` | protocol/buffer_delta.go:142-218 | the style table |
| `DeltaCodec.AppendRows` | protocol/buffer_delta.go:223-300 | rows and decoration rows |
| `DeltaCodec.DecodeStyles` | protocol/buffer_delta.go:322-372 | the style table |
| `DeltaCodec.DecodeRows` | protocol/buffer_delta.go:380-449 | rows and decoration rows |
| `TreeSnapshots.DecodeEncode` | protocol/messages.go:963-1088 | decoding an encoded snapshot gives it back when every string passes the 16-bit length test and reports a short payload otherwise |
| `TreeSnapshots.EncodeDecode` | protocol/messages.go:1021-1088 | an accepted payload is the only encoding of what it decodes to |
| `TreeSnapshots.RoundTripExactly` | protocol/messages.go:963-1088 | the round trip is exact for normal snapshots whose strings fit and for no other |
| `TreeSnapshots.EncodableExactly` | protocol/messages.go:963-1019 | a snapshot is encoded exactly when all strings fit 16 bits and every node has as many ratios as the count it is told with; otherwise the error says which |
| `TreeSnapshots.SmallRoundTrip` | protocol/messages.go:246-256 | every normal snapshot whose encoding is below 65,560 bytes survives |
| `TreeSnapshots.SmallBoundIsTight` | protocol/messages.go:252-254 | one of 65,560 bytes is refused |
| `TreeSnapshots.NodeReads` | protocol/messages.go:1090-1149 | reading a written tree gives it back, whatever follows |
| `TreeSnapshots.NodeWrites` | protocol/messages.go:1119-1149 | only normal trees are read, and from their encoding |
| `TreeSnapshots.WideTreeIsLost` | protocol/messages.go:1097-1100 | 65,536 children are written as none |
| `SnapshotCodec.EncodeTreeSnapshot` | protocol/messages.go:963-1018 | the loops write exactly the encoding or report the first check that fails |
| `SnapshotCodec.DecodeTreeSnapshot` | protocol/messages.go:1021-1088 | the loops compute exactly the decoding |
| `SnapshotCodec.EncodeTreeNode` | protocol/messages.go:1090-1117 | the recursion over the tree |
| `SnapshotCodec.DecodeTreeNode` | protocol/messages.go:1119-1149 | the recursion over the payload, which ends because each node consumes seven bytes |
| `SnapshotCodec.EncodeString` | protocol/messages.go:231-244 | a string behind its length, or too long |
| `SnapshotCodec.DecodeString` | protocol/messages.go:246-256 | a string, its length compared modulo 65,536 |
| `Framing.ReadWrite` | protocol/protocol.go:108-195 | a written message is read back with length and checksum filled in exactly when it has the current version and at most 16 MiB |
| `Framing.ReadIsFaithful` | protocol/protocol.go:144-195 | whatever is read was on the stream as the frame of that message |
| `Framing.ChecksumGuards` | protocol/protocol.go:182-192 | a checksummed frame is returned when it carries its checksum and refused otherwise |
| `Framing.ReadAllWritten` | protocol/protocol.go:108-195 | a list of written messages is read back in order, then what follows it |
| `Framing.ReadAllEnds` | protocol/protocol.go:144-149 | and with nothing behind it, reading ends at the end of the stream |
| `Framing.CutKeepsPrefix` | protocol/protocol.go:144-195 | cutting any stream anywhere loses messages from the end only |
| `Framing.CutReported` | protocol/protocol.go:147-180 | a cut inside a message delivers the ones before it and is reported by where it falls |
| `Framing.WriteMessage` | protocol/protocol.go:108-140 | appends exactly the frame to the stream |
| `Framing.ReadMessage` | protocol/protocol.go:144-195 | takes exactly one frame off the stream, or reports why not |
| `Framing.Stream.ReadFull` | protocol/protocol.go:147-180 | fills the buffer, or tells an empty stream from a short one |
| `WireLayout.FieldBytes` | protocol/buffer_delta.go:124-140 | byte i of an integer field is the value divided by 256 to the i, modulo 256 |
| `WireLayout.EncodedDelta` | protocol/buffer_delta.go:124-304 | every encoded delta has its header fields at bytes 0, 16, 20 and 21, and its style table, rows and decoration rows counted and laid out field by field at fixed offsets |
| `WireLayout.DecodedDelta` | protocol/buffer_delta.go:306-454 | every accepted payload has that layout for the delta returned: each integer is the sum of its bytes times 1, 256, 65536 and so on |
| `WireLayout.EncodedSnapshot` | protocol/messages.go:963-1019 | the same for the pane list and the tree of a snapshot |
| `WireLayout.DecodedSnapshot` | protocol/messages.go:1021-1149 | the same for every snapshot payload accepted |
| `WireLayout.WrittenFrame` | protocol/protocol.go:108-140 | a written frame has the magic number 01 4c 58 54, each header field at its offset, the payload's length at 32 and at 36 the checksum of bytes 4 to 35 and the payload if bit 0 of the flags asks for it |
| `WireLayout.AcceptedExactly` | protocol/protocol.go:144-195 | a frame is accepted exactly when its bytes have the magic number, version 3, a length of at most 16 MiB that is there and the right checksum if flagged, and the message is what the bytes say |
| `WireLayout.RefusedBecause` | protocol/protocol.go:144-195 | otherwise the first thing wrong, in the order of the code, is the error reported |
| `SpanPaint.LastWriterWins` | client/buffercache.go:196-221 | a column shows the last span that covers it |
| `SpanPaint.CellIs` | client/pane_cache.go:161-191 | a painted cell has the letter, the style of its entry and, behind bit 8 of the flags, its dynamic colours |
| `SpanPaint.LastSpanShows` | client/pane_cache.go:161-191 | the span painted last shows all its letters from its first column on |
| `SpanPaint.Untouched` | client/buffercache.go:534-544 | a column no span covers keeps its cell or is blank |
| `SpanPaint.PaintedLength` | client/buffercache.go:534-544 | a row is as long as it was or as its farthest span end |
| `SpanPaint.PaintedTwice` | client/buffercache.go:199-219 | painting in two batches is painting at once |
| `SpanPaint.DecodeSpans` | client/pane_cache.go:161-183 | paints the spans on an empty row |
| `SpanPaint.PaintOver` | client/buffercache.go:199-219 | paints the spans over the row there was |
| `SpanPaint.EnsureRowLength` | client/buffercache.go:534-544 | grows a row with blanks |
| `PaneCaches.RowIsLastWritten` | client/pane_cache.go:47-136 | a row is cached exactly when an accepted message wrote it and nothing since wrote or dropped it, and is that message's row |
| `PaneCaches.AltRowIsLastWritten` | client/pane_cache.go:50-69 | an alt row is the one last written since the alt-screen was entered, or empty |
| `PaneCaches.RevisionIsLargest` | client/pane_cache.go:60-91 | the revision is the largest accepted |
| `PaneCaches.RevisionGrows` | client/pane_cache.go:60-91 | and never falls |
| `PaneCaches.StaleFetchIgnored` | client/pane_cache.go:85-88 | a response older than any accepted message changes nothing |
| `PaneCaches.FetchTakesEffect` | client/pane_cache.go:78-97 | a response takes effect exactly when it is not for the alt-screen and not older than the cache; each row it names is then its last record's, and the others stay |
| `PaneCaches.ModeIsLastUpdate` | client/pane_cache.go:50-59 | the mode is the last update's, and outside the alt-screen there are no alt rows |
| `PaneCaches.UpdateSwitches` | client/pane_cache.go:47-75 | bit 0 of an update's flags is the mode; entering the alt-screen empties the main rows, leaving it the alt rows |
| `PaneCaches.EvictKeepsWindow` | client/pane_cache.go:122-136 | an eviction keeps its window exactly when the margins stay within 64 bits |
| `PaneCaches.EvictKeepsExactly` | client/pane_cache.go:122-136 | an eviction keeps exactly the rows of the window widened by one and a half times the overscan, and what is kept when a margin runs past 64 bits |
| `PaneCaches.EvictBoundsSize` | client/pane_cache.go:122-136 | it leaves at most the window and its margins |
| `PaneCaches.EvictKeepsMissing` | client/pane_cache.go:122-150 | and the same rows missing from the window |
| `PaneCaches.MissingExactly` | client/pane_cache.go:140-150 | the rows to fetch are those of the range that are not cached, ascending |
| `PaneCaches.FetchFills` | client/pane_cache.go:78-97 | an accepted response that names them all leaves none missing |
| `PaneCaches.PaneCache.ApplyDelta` | client/pane_cache.go:47-75 | performs the update step |
| `PaneCaches.PaneCache.ApplyFetchRange` | client/pane_cache.go:78-97 | performs the fetch step |
| `PaneCaches.PaneCache.Evict` | client/pane_cache.go:122-136 | performs the eviction |
| `PaneCaches.PaneCache.MissingRows` | client/pane_cache.go:140-150 | returns the missing rows |
| `PaneCaches.PaneCache.AltPut` | client/pane_cache.go:152-157 | stores an alt row, growing the buffer |
| `BufferCaches.RowsArePainted` | client/buffercache.go:196-221 | a row ends up with all its spans painted over what it held, and appears when named |
| `BufferCaches.DeltaPaints` | client/buffercache.go:179-280 | a delta at least as new as the pane paints its rows over the content rows and its decoration rows over the decoration rows, each present exactly when it was or is named; an older one changes nothing |
| `BufferCaches.CachesAgreeExactly` | client/buffercache.go:196-221 | a fresh screen cache and the pane cache in any state hold the same row exactly when the last row naming it hides what the earlier ones painted |
| `BufferCaches.DeltasAgreeExactly` | client/pane_cache.go:63-74 | and agree on a delta exactly when that holds on every row it names |
| `BufferCaches.HidesExactly` | client/buffercache.go:199-219 | painting over a row equals painting on nothing exactly when the row is no longer than the result and blank where no span covers it |
| `BufferCaches.CachesAgree` | client/buffercache.go:196-221 | so they agree on every delta whose row indices are distinct |
| `BufferCaches.CachesCanDiffer` | client/buffercache.go:196-221 | a delta that can be received, naming a row twice, on which they differ |
| `BufferCaches.RevisionsRise` | client/buffercache.go:190-192 | a pane's revision never falls and older deltas are ignored |
| `BufferCaches.TimelyExactly` | client/buffercache.go:190-192 | over a run, the deltas that take effect are those at least as new as all before them |
| `BufferCaches.ColumnShows` | client/buffercache.go:179-280 | over any run, a column of a content or decoration row shows the last span covering it in the last such delta that has one there |
| `BufferCaches.PaneState.Apply` | client/buffercache.go:190-276 | paints a delta's rows and decoration rows unless it is older |
| `BufferCaches.BufferCache.ApplyDelta` | client/buffercache.go:179-280 | only the delta's own pane changes, created when new |
| `Minimap.RunsAreSafe` | apps/texelterm/scrollbar.go:185-402 | every interleaving keeps: one worker exactly while computing is set; a valid cache is for the search set in force and no older than the last invalidation; it has the bar's height unless its job was launched late; a render gets the rows it asked for |
| `Minimap.AtMostOneWorker` | apps/texelterm/scrollbar.go:315-326 | there are never two workers, nor one about to be launched beside one |
| `Minimap.ComputingMeansWorker` | apps/texelterm/scrollbar.go:315-395 | computing is set exactly while a worker runs or is about to be launched |
| `Minimap.HitIsCurrent` | apps/texelterm/scrollbar.go:308-313 | a render that hits the cache gets its height, the present search set and contents no older than the last invalidation |
| `Minimap.ValidHeightExactly` | apps/texelterm/scrollbar.go:247-335 | a valid cache has another height than the bar exactly when its worker was launched by a render that had read its height before a resize |
| `Minimap.ValidCacheCanHaveOldHeight` | apps/texelterm/scrollbar.go:247-335 | a run in which it has |
| `Minimap.ScrollBar.Resize` | apps/texelterm/scrollbar.go:185-193 | a new height invalidates |
| `Minimap.ScrollBar.FireTimer` | apps/texelterm/scrollbar.go:209-217 | the debounce timer invalidates once |
| `Minimap.ScrollBar.SetSearchResults` | apps/texelterm/scrollbar.go:222-235 | the search set is that of the results, and the cache is invalidated |
| `Minimap.ScrollBar.CheckCache` | apps/texelterm/scrollbar.go:305-326 | a hit serves the requested height; a worker is launched only when none is under way, with the present search set |
| `Minimap.ScrollBar.LookAtCache` | apps/texelterm/scrollbar.go:329-335 | always as many rows as asked for: the cache when it has them, else an empty minimap |
| `Minimap.ScrollBar.FinishWork` | apps/texelterm/scrollbar.go:377-394 | retry with the present parameters, or commit a valid cache for the present search set and end |
| `Thumb.ThumbFits` | apps/texelterm/scrollbar.go:870-931 | within the scroll range the thumb lies on the track without the clamps acting, of one length at every offset |
| `Thumb.WholeRows` | apps/texelterm/scrollbar.go:911-921 | in whole-row mode both ends are on row boundaries at least a row apart |
| `Thumb.ThumbRises` | apps/texelterm/scrollbar.go:902-921 | scrolling back never moves the thumb down |
| `Thumb.ThumbReachesEnds` | apps/texelterm/scrollbar.go:902-921 | offset 0 puts it at the bottom and the largest offset at the top |
| `Thumb.ThumbProportional` | apps/texelterm/scrollbar.go:847-932 | the thumb's size is the whole part of the track in proportion to the lines in view, and it begins where the part of the free track not scrolled back ends, up to rounding to a third or to rows |
| `Thumb.ThumbFull` | apps/texelterm/scrollbar.go:847-932 | a track of two rows or less, or with all lines in view, is all thumb |

## Left out

- float64 rounding of ratios, easing and thumb positions, and the wrap of 64-bit counters except where a member states it.
- `Workspaces.Workspace.PerformSplit`: is modelled at the ratios its animation ends on; the initial ratios and the frames are operations of their own, put together in `Animations.AnimatedSplit`.
- `Workspaces.Workspace.ApplyFrame`: takes a frame whose ratios fit the group and match its children; frames that arrive after the group has changed are not modelled.
- `Workspaces.Workspace.ReplaceRoot`: does not follow the case in which no welcome app can be made and the workspace stays empty.
- `Workspaces.Workspace.RemoveNode`: is atomic; an animation before it is in `Animations.AnimatedRemoval`, where nothing else changes the tree meanwhile.
- `Transitions.SplitOvershootFills`: takes the curve's peak as a parameter; the exponential and cosine of the spring curve are not modelled.
- `Transitions.SpringTickExactly`: takes as given that the spring curve is at 1 + 1/e where its cosine is -1.
- `Transitions.LayoutTransitionManager.Animate`: no callbacks, no change of configuration during an animation; frames may come in any order of nodes.
- `PaneCaches.PaneCache.MissingRows`: requires hi below the largest int64, at which the source's loop does not end.
- `Snapshots.RestoreWorkspace`: does not model the pointer from a pane to its workspace, nor the apps in the panes.
- `Framing.WriteMessage`: errors of the writer are not modelled.
- `Framing.ReadMessage`: stream errors other than its end are not modelled.
- `BufferCaches.PaneState.Apply`: dirty and animation flags are left out.
- `BufferCaches.BufferCache.ApplyDelta`: dirty flags and the order of panes are left out.
- `Minimap.RunsAreSafe`: heights are not negative (a negative one would make the worker's allocation fail), the generation counter does not wrap, and a minimap's drawing is reduced to what it was drawn from.
- Tree.CloseActiveLeaf, which drops a child but not its ratio and which nothing calls (texel/tree.go:171-230).
- Zoom, floating panels, control mode, workspace switching and the highlighting of the panes being resized.
- The branch of resizeNode for a group whose ratio count does not match (texel/tree.go:447-452): no run of the machine reaches it.
- Row slices of the client caches shared between the cache and its readers; rows are values here.
- Snapshots of BufferCache; wrapped and no-wrap flags of fetched rows.
- The other messages of the protocol, which are shorter forms of the same codec, and UTF-8 decoding.
- Terminal, shell, clipboard, sockets, persistence, rendering, styles, widgets, events, refresh signals and logging.
