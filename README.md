# Drawer rows for a react-virtualized table, modelled in Dafny

This project models the row-expansion controller of react-virtualized-with-drawer. The controller is the React
component `WithDrawer` (src/drawer/with-drawer.js). It keeps, per table row:

- an expanded flag;
- an in-flight height override while the row animates;
- a tween that drives that animation.

It answers react-virtualized's `rowHeight` and `rowRenderer` callbacks from that state. On every change it asks the
table it was given through `setTableRef` to recompute row heights. The row renderer
(src/drawer/row-renderer.js) is a pure function of its props: it lays a row out as a head sub-row holding the
columns and a drawer sub-row holding the drawer content.

Files:

- `row_renderer.dfy` (module `RowRenderer`): the row renderer as a function returning a description of the element.
- `drawer_state.dfy` (module `DrawerState`): the component's fields as a value `Snapshot`, with `rowHeight` and
  `rowRenderer` as functions of it. Each operation is a function from the old `Snapshot` to the new one.
- `drawer_properties.dfy` (module `DrawerProperties`): what the component promises, as lemmas. This includes a
  core invariant that every sequence of operations keeps, as written, and a full invariant (the core one plus
  "`_animating` is raised exactly while a tween runs") that every sequence keeps once line 157 is corrected.
- `with_drawer.dfy` (module `Drawer`): the class `WithDrawer`. Its methods update its fields in place. Each method
  is proved to reach the state that the matching `DrawerState` function computes, and to keep the invariant.

How the model reads the source:

- `rowsExpandedState` is a `map<int, bool>`, and an absent entry reads as collapsed.
- `rowsHeight` is a `map<int, HeightValue>`. `HeightRecord(h)` is the object `{ height }` stored when an animation
  starts (line 138). `Number(h)` is the plain number stored by each tween step (line 147). `rowHeight` combines the
  override and the static height with `||` (line 183), so an object is always taken, even `{ height: 0 }`. The
  number 0 falls through to the static height. `rowHeight` itself returns a `HeightValue`. Between the start of an
  animation and its first step, it returns the `{ height }` object rather than a number.
- `rowsTween` is a `map<int, Tween>`. Stopping a tween and replacing it (lines 140-141) leaves only the new tween
  under that row. `live` says whether the tween is still in tween.js's update list.
- tween.js delivers each `onUpdate` and `onComplete` as an event, `TweenStep(i, h)` or `TweenComplete(i)`. An event
  acts only on a row whose tween is live. The interpolated height `h` is any integer.
- React's functional `setState` is an atomic update of the flags, followed at once by its callback.
- `recomputeRowHeights` calls are recorded in order in a log rather than performed. A call made while `this.table`
  is unset is recorded as not delivered. In the source such a call throws a TypeError, because line 113 and line 150
  do not check for a missing table.
- A restarted animation starts from a static height, never from the last interpolated height (lines 130-132).
  When no plain `toggleDrawer` of the row comes between the two animated toggles, the row is expanded at the
  restart, so the restart collapses it from its expanded height
  (`DrawerProperties.RestartCollapsesFromExpandedHeight`). A plain toggle in between collapses the row first, and
  the restart then expands it again from its collapsed height (`DrawerProperties.ToggleBetweenRestartsExpands`).
- Reading `rowsDimensions[index]` outside the array throws in the source. The members that read it (`rowHeight`,
  `rowRenderer`, `toggleDrawerWithAnimation`) require `0 <= index < |dims|`. The others accept any index, as the
  source does.

## Model

| member | source | states |
|---|---|---|
| RowRenderer.OuterStyle | src/drawer/row-renderer.js:23 | the outer style keeps every entry of the caller's style except `display`, `borderBottom` and `paddingTop`, which are forced to `'block'`, `'solid 1px black'` and `10` |
| RowRenderer.Render | src/drawer/row-renderer.js:10-37 | class name passed through unchanged; head height is the collapsed height and the head always holds the columns; drawer height is expanded minus collapsed; the two heights sum to the expanded height; the drawer holds the drawer content exactly when `expanded` is set, else the empty string |
| RowRenderer.ExpandedOnlyChangesDrawerChildren | src/drawer/row-renderer.js:29-33 | the rendered rows for `expanded` true and false differ only in what the drawer sub-row holds |
| DrawerState.Initial | src/drawer/with-drawer.js:64-74 | after construction no row is expanded or overridden, no tween runs, `_animating` is down, no table is set and no recompute has been requested |
| DrawerState.Recompute | src/drawer/with-drawer.js:113 | appends one request with the given start row, delivered exactly when a table is set, and changes nothing else |
| DrawerState.SetTableRef | src/drawer/with-drawer.js:186-188 | the table becomes the given element (absent when React passes null) and nothing else changes |
| DrawerState.RowHeight | src/drawer/with-drawer.js:176-184 | a truthy override wins; otherwise the expanded height when the row's flag is set, else the collapsed height |
| DrawerState.RenderRowAt | src/drawer/with-drawer.js:83-101 | renders with the row's own dimensions and flag: head of collapsed height holding the columns, drawer of height expanded minus collapsed, holding the drawer content built from the same row props exactly when the row is expanded |
| DrawerState.ToggleDrawer | src/drawer/with-drawer.js:106-114 | negates the flag of the row (absent counts as false), leaves every other row's entry as it was, and then makes exactly one recompute request with no index; nothing else changes |
| DrawerState.StartAnimation | src/drawer/with-drawer.js:120-163 | the row ends expanded; the override is the `{ height }` object of the static height for the old flag; the row's only tween runs from that height to the other static height and records the old flag; a recompute request is made only when the row was collapsed; other rows' flags are unchanged |
| DrawerState.Step | src/drawer/with-drawer.js:145-151 | with a live tween: the override of that row becomes the number `h` and one recompute request for that row is logged, nothing else changes; without one: no change |
| DrawerState.FinishTween | src/drawer/with-drawer.js:152-156 | the override of the row is deleted, its tween stops, and the row is toggled back exactly when it was expanded when its tween began |
| DrawerState.CompleteAsWritten | src/drawer/with-drawer.js:152-158 | completing a live tween finishes it and lowers `_animating`, whatever other tweens run |
| DrawerState.Complete | src/drawer/with-drawer.js:152-158 | completing a live tween finishes it and leaves `_animating` raised exactly while another tween still runs; a tween that is not live does not complete |
| DrawerProperties.UntouchedRowIsCollapsed | src/drawer/with-drawer.js:176-184 | a row with no flag and no override has its collapsed height |
| DrawerProperties.InitialRowsAreCollapsed | src/drawer/with-drawer.js:64-74 | right after construction every row has its collapsed height |
| DrawerProperties.ToggleLeavesOtherRows | src/drawer/with-drawer.js:106-111 | a toggle changes neither the flag nor the height of any other row |
| DrawerProperties.ToggleTwiceRestoresHeight | src/drawer/with-drawer.js:106-111 | two toggles of a row give it back its flag and its height |
| DrawerProperties.ToggleTimesParity | src/drawer/with-drawer.js:106-114 | after n toggles the row's flag has changed exactly when n is odd and each toggle has added one whole-table recompute request, also while the row animates; when the row has no override its height follows the flag |
| DrawerProperties.ToggleCountDecidesHeight | src/drawer/with-drawer.js:106-111 | from a collapsed row without an override, an odd number of toggles gives the expanded height, an even number the collapsed height |
| DrawerProperties.StepsTouchOnlyTheirRow | src/drawer/with-drawer.js:145-151 | any run of steps of a live tween changes only that row's override, which holds the last height, and appends one request for that row per step |
| DrawerProperties.AnimateCollapsedRow | src/drawer/with-drawer.js:124-138 | on a collapsed row the flag is set before any step and the tween runs from the collapsed to the expanded height |
| DrawerProperties.AnimateExpandedRow | src/drawer/with-drawer.js:124-138 | on an expanded row the flags are untouched, no request is made, and the tween runs from the expanded to the collapsed height |
| DrawerProperties.StepWritesOwnRow | src/drawer/with-drawer.js:145-151 | a step writes its height for its own row only, logs a request for that row, and leaves every other row's height unchanged |
| DrawerProperties.ZeroStepFallsThrough | src/drawer/with-drawer.js:183 | a step to height 0 leaves the row at its static height, because the number 0 is falsy and the `or` falls through to the static height |
| DrawerProperties.FinishedExpand | src/drawer/with-drawer.js:120-158 | whatever the steps, a finished expansion leaves the row expanded, without an override, at its expanded height, with its drawer content rendered; proved for `onComplete` as written and with the correction |
| DrawerProperties.FinishedCollapse | src/drawer/with-drawer.js:120-158 | a collapse keeps the row expanded through every step, and when finished leaves it collapsed, without an override, at its collapsed height, with an empty drawer; proved for `onComplete` as written and with the correction |
| DrawerProperties.CompleteIsFinal | src/drawer/with-drawer.js:152-158 | a second completion changes nothing, so the final flip of a collapse is never applied twice; proved for `onComplete` as written and with the correction |
| DrawerProperties.RestartCollapsesFromExpandedHeight | src/drawer/with-drawer.js:124-141 | a restart after any steps replaces the old tween with one from the static expanded height to the collapsed height, and stores `{ height }` of the expanded height |
| DrawerProperties.InterruptedAnimationEndsCollapsed | src/drawer/with-drawer.js:120-158 | an interrupted animation, once its replacement completes, leaves the row collapsed at its collapsed height; proved for `onComplete` as written and with the correction |
| DrawerProperties.ToggleBetweenRestartsExpands | src/drawer/with-drawer.js:124-141 | a plain toggle between two animated toggles of a row, after any steps, leaves the second one expanding the row from `{ height }` of its collapsed height towards its expanded height |
| DrawerProperties.InitialInv | src/drawer/with-drawer.js:64-74 | the constructor's state satisfies the full invariant |
| DrawerProperties.ToggleDrawerKeepsInv | src/drawer/with-drawer.js:106-114 | a toggle keeps the core invariant, the full invariant, and the as-written flag property (flag raised only while a tween runs) |
| DrawerProperties.SetTableRefKeepsInv | src/drawer/with-drawer.js:186-188 | setting the table ref keeps the core invariant, the full invariant and the as-written flag property |
| DrawerProperties.StartAnimationKeepsInv | src/drawer/with-drawer.js:120-163 | from any state with the core invariant, starting an animation reaches the full invariant: the new override matches the new live tween and the raised flag has a tween running |
| DrawerProperties.StepKeepsInv | src/drawer/with-drawer.js:145-151 | a step keeps the core invariant, the full invariant and the as-written flag property |
| DrawerProperties.CompleteKeepsInv | src/drawer/with-drawer.js:152-158 | with the correction of line 157, a completion keeps the full invariant: the override leaves with its tween and the flag follows the remaining tweens |
| DrawerProperties.CompleteAsWrittenKeepsCoreInv | src/drawer/with-drawer.js:152-158 | the completion as written keeps the core invariant, and never leaves the flag raised without a running tween |
| DrawerProperties.RunAsWrittenKeepsCoreInv | src/drawer/with-drawer.js:106-188 | as written, every sequence of toggles, animated toggles, steps, completions and ref changes keeps the core invariant (overrides exist exactly for rows with a live tween, `{ height }` holds the tween's start, every tween runs between its row's static heights) and never leaves `_animating` raised without a running tween |
| DrawerProperties.RunKeepsInv | src/drawer/with-drawer.js:106-188 | with the correction of line 157, every such sequence also keeps `_animating` raised exactly while a tween runs |
| DrawerProperties.RestingRowHasStaticHeight | src/drawer/with-drawer.js:176-184 | in any state with the core invariant (so in every state reachable as written) a row without a live tween has the static height for its flag |
| DrawerProperties.NoAnimationMeansStaticHeights | src/drawer/with-drawer.js:176-184 | with the correction of line 157, once `_animating` is down every row has the static height for its flag |
| DrawerProperties.CompletionClearsFlagWhileTweenLive | src/drawer/with-drawer.js:157 | as written, the state reached by animating rows 0 and 1 satisfies the full invariant, and completing row 0 lowers `_animating` while row 1's tween is live, breaking it |
| DrawerProperties.FlagDownWhileRowMidAnimation | src/drawer/with-drawer.js:157 | as written, animating rows 0 and 1, stepping row 1 to 70 and completing row 0 leaves `_animating` down while row 1's tween runs and row 1 sits at height 70, not at a static height |
| DrawerProperties.CompletionKeepsFlagWhileTweenLive | src/drawer/with-drawer.js:157 | with the correction, after any completion `_animating` is raised exactly while some tween is live |
| Drawer.WithDrawer.constructor | src/drawer/with-drawer.js:64-74 | empty flags, overrides and tweens, no table; the invariant holds |
| Drawer.WithDrawer.RecomputeRowHeights | src/drawer/with-drawer.js:150 | appends one request with the given start row, delivered exactly when a table is set, and changes no other field |
| Drawer.WithDrawer.RowHeight | src/drawer/with-drawer.js:176-184 | read from the fields: a truthy override wins, otherwise the static height for the row's flag; in a valid state a row whose tween is not running has the static height for its flag |
| Drawer.WithDrawer.RowRenderer | src/drawer/with-drawer.js:83-101 | read from the fields: the head and drawer heights sum to the row's expanded height, and the drawer holds the content built from the same row props exactly when the row's flag is set |
| Drawer.WithDrawer.SetTableRef | src/drawer/with-drawer.js:186-188 | stores the element as the table and changes nothing else; keeps the invariant |
| Drawer.WithDrawer.ToggleDrawer | src/drawer/with-drawer.js:106-114 | updates the fields in place to `DrawerState.ToggleDrawer` of the old state; keeps the invariant |
| Drawer.WithDrawer.ToggleDrawerWithAnimation | src/drawer/with-drawer.js:120-163 | updates the fields in place, stopping the row's previous tween, to `DrawerState.StartAnimation` of the old state; keeps the invariant |
| Drawer.WithDrawer.TweenStep | src/drawer/with-drawer.js:145-151 | updates the fields in place to `DrawerState.Step` of the old state; keeps the invariant |
| Drawer.WithDrawer.TweenComplete | src/drawer/with-drawer.js:152-158 | updates the fields in place to `DrawerState.Complete` of the old state; keeps the invariant |

## Findings

| source | as written | input that shows it | evidently intended | confidence | as-written member | corrected member |
|---|---|---|---|---|---|---|
| src/drawer/with-drawer.js:157 | every tween's `onComplete` sets `this._animating = false`, even while other rows' tweens are still running | with the table mounted, animate row 0 and then row 1. Row 0's tween completes first: `_animating` is false while row 1's tween is live. `_animate` (lines 169-174) then stops requesting frames, so row 1 freezes at an intermediate height until some other animation starts | lower the flag only once no tween remains | not executed; high for the flag, medium for the frozen row (it depends on tween.js advancing tweens only from `_animate`) | DrawerProperties.CompletionClearsFlagWhileTweenLive and DrawerProperties.FlagDownWhileRowMidAnimation (over DrawerState.CompleteAsWritten); what still holds as written: DrawerProperties.RunAsWrittenKeepsCoreInv | DrawerState.Complete, proved by DrawerProperties.CompleteKeepsInv, DrawerProperties.CompletionKeepsFlagWhileTweenLive, DrawerProperties.RunKeepsInv and DrawerProperties.NoAnimationMeansStaticHeights; used by Drawer.WithDrawer.TweenComplete |

## Left out

- The frame loop `_animate` and `requestAnimationFrame` (lines 161-162, 169-174) are not modelled. Neither is `TWEEN.update`. Steps and completions are events that may arrive in any order. The model keeps `_animating`, but not the loop it controls. With tween.js's usual update, the `_animate()` call at line 162 runs the first `onUpdate` at once, so callers of `rowHeight` normally see a number; the model also allows a `rowHeight` read before the first step, which returns the `{ height }` object.
- The tween's 250 ms duration and quadratic ease-out curve (lines 142-144) are not modelled. They are floating-point numerics inside tween.js. Each interpolated height is an arbitrary integer passed to `TweenStep`.
- Heights are integers. JavaScript numbers are floating point, so fractional heights and NaN are not modelled.
- DrawerState.Complete and Drawer.WithDrawer.TweenComplete: line 157 lowers `_animating` unconditionally, and these members keep it raised while another tween runs. This is the correction described under Findings. DrawerState.CompleteAsWritten models the line as written.
- The TypeError thrown when `this.table` is unset is not modelled past its origin. The request is recorded as not delivered, and the rest of the operation goes on as if the call had returned. The model does not show an aborted callback, or an aborted `TWEEN.update` pass.
- React may batch a `setState` made inside an event handler and run its callback after the handler returns. The model applies the update and runs the callback at once. With one toggle of a row per handler, a request can appear earlier in the log than in a batched run, and the final state is the same. With two toggles of a row in one handler the results can differ: after `toggleDrawer` and then `toggleDrawerWithAnimation` on a collapsed row, a batched run reads the stale collapsed flag at line 124 and animates towards the expanded height, while the model sees the row expanded and animates towards the collapsed height.
- `render()` (lines 190-199) only passes the component's functions and `rowsExpandedState` to its child function. It has no logic of its own.
- The `key` prop (it only goes to React's reconciliation, so `RowProps` leaves it out), the `rowData` prop (destructured but unused) and the spread of `rowProps` after the explicit props in `rowRenderer` are not modelled. react-virtualized's row props carry none of the names that the spread could override.
- The constant parts of the rendered element are not modelled: the sub-rows' class name `ReactVirtualized__Table__sub-row` and their `display: 'flex'`.
- Drawer.WithDrawer.ToggleDrawerWithAnimation and DrawerState.StartAnimation: require an index inside `rowsDimensions`. With an index outside it the source throws a TypeError at lines 131-132, after partial effects the model does not show: line 122 has already raised `_animating`, and on a collapsed row line 127 has already flipped the row's flag and requested a recompute.
- Prop-type checking (lines 33-62) is not modelled.
- src/drawer/table-with-drawer.example.js (demo wiring) and webpack.config.js (build configuration) are not part of this model. Nor is react-virtualized's own `recomputeRowHeights`.
