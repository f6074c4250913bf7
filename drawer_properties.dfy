/** What the component of src/drawer/with-drawer.js promises, stated over the
    state transitions of DrawerState: heights of untouched and toggled rows,
    the life of one animation, restarts, and the invariant every sequence of
    operations keeps. */
module DrawerProperties {
  import opened RowRenderer
  import opened DrawerState

  /** A tween that `StartAnimation` could have created for row `i`: it runs
      between the row's two static heights, away from the flag it began with. */
  predicate TweenFits(dims: seq<Dimensions>, i: int, t: Tween) {
    && 0 <= i < |dims|
    && t.start == StaticHeight(dims[i], t.wasExpanded)
    && t.target == StaticHeight(dims[i], !t.wasExpanded)
  }

  /** What every reachable state satisfies, whichever way `onComplete` treats
      `_animating`: an override exists exactly for the rows whose tween is
      running; the `{ height }` object holds the tween's start; every tween
      belongs to a known row and runs between its static heights. */
  ghost predicate CoreInv(dims: seq<Dimensions>, s: Snapshot) {
    && s.override.Keys == LiveRows(s.tweens)
    && (forall i :: i in s.tweens ==> TweenFits(dims, i, s.tweens[i]))
    && (forall i :: i in s.override && i in s.tweens && s.override[i].HeightRecord? ==>
          s.override[i].height == s.tweens[i].start)
  }

  /** The flag as line 157 leaves it: never raised without a running tween,
      though it may be down while one runs. */
  predicate FlagOnlyWhileAnimating(s: Snapshot) {
    s.animating ==> LiveRows(s.tweens) != {}
  }

  /** The invariant with the correction of line 157: `_animating` is raised
      exactly while some tween runs. */
  ghost predicate Inv(dims: seq<Dimensions>, s: Snapshot) {
    && CoreInv(dims, s)
    && (s.animating <==> LiveRows(s.tweens) != {})
  }

  // ---------------------------------------------------------------------------
  // Plain toggles

  /** A row nobody has toggled or animated has its collapsed height. */
  lemma UntouchedRowIsCollapsed(dims: seq<Dimensions>, s: Snapshot, i: int)
    requires 0 <= i < |dims|
    requires i !in s.expanded && i !in s.override
    ensures RowHeight(dims, s, i) == Number(dims[i].collapsedHeight)
  {
  }

  /** Right after construction every row has its collapsed height. */
  lemma InitialRowsAreCollapsed(dims: seq<Dimensions>, i: int)
    requires 0 <= i < |dims|
    ensures RowHeight(dims, Initial(), i) == Number(dims[i].collapsedHeight)
  {
    UntouchedRowIsCollapsed(dims, Initial(), i);
  }

  /** `toggleDrawer(i)` leaves the height of every other row alone. */
  lemma ToggleLeavesOtherRows(dims: seq<Dimensions>, s: Snapshot, i: int, j: int)
    requires 0 <= j < |dims| && j != i
    ensures IsExpanded(ToggleDrawer(s, i).expanded, j) == IsExpanded(s.expanded, j)
    ensures RowHeight(dims, ToggleDrawer(s, i), j) == RowHeight(dims, s, j)
  {
  }

  /** `toggleDrawer(i)` twice gives row `i` back its height, override or not. */
  lemma ToggleTwiceRestoresHeight(dims: seq<Dimensions>, s: Snapshot, i: int)
    requires 0 <= i < |dims|
    ensures IsExpanded(ToggleDrawer(ToggleDrawer(s, i), i).expanded, i) == IsExpanded(s.expanded, i)
    ensures RowHeight(dims, ToggleDrawer(ToggleDrawer(s, i), i), i) == RowHeight(dims, s, i)
  {
  }

  /** `toggleDrawer(i)` called `n` times in a row. */
  function ToggleTimes(s: Snapshot, i: int, n: nat): Snapshot
    decreases n
  {
    if n == 0 then s else ToggleDrawer(ToggleTimes(s, i, n - 1), i)
  }

  /** After `n` toggles the flag of row `i` is the old one exactly when `n` is
      even and every call has made one whole-table recompute request, whether
      or not the row is animating; without an override the row's height
      follows the flag. */
  lemma {:induction false} ToggleTimesParity(dims: seq<Dimensions>, s: Snapshot, i: int, n: nat)
    requires 0 <= i < |dims|
    ensures var r := ToggleTimes(s, i, n);
      && IsExpanded(r.expanded, i) == (IsExpanded(s.expanded, i) != (n % 2 == 1))
      && r.override == s.override && r.tweens == s.tweens && r.table == s.table
      && |r.log| == |s.log| + n
      && (forall k :: |s.log| <= k < |r.log| ==> r.log[k] == Request(None, s.table.Some?))
      && (i !in s.override ==>
            RowHeight(dims, r, i) == Number(StaticHeight(dims[i], IsExpanded(s.expanded, i) != (n % 2 == 1))))
    decreases n
  {
    if n > 0 {
      ToggleTimesParity(dims, s, i, n - 1);
    }
  }

  /** From a collapsed row, an odd number of toggles gives the expanded height
      and an even number the collapsed height. */
  lemma ToggleCountDecidesHeight(dims: seq<Dimensions>, s: Snapshot, i: int, n: nat)
    requires 0 <= i < |dims|
    requires !IsExpanded(s.expanded, i) && i !in s.override
    ensures n % 2 == 1 ==> RowHeight(dims, ToggleTimes(s, i, n), i) == Number(dims[i].expandedHeight)
    ensures n % 2 == 0 ==> RowHeight(dims, ToggleTimes(s, i, n), i) == Number(dims[i].collapsedHeight)
  {
    ToggleTimesParity(dims, s, i, n);
  }

  // ---------------------------------------------------------------------------
  // One animation

  /** The tween's `onUpdate` called once per height in `hs`. */
  function ApplySteps(s: Snapshot, i: int, hs: seq<int>): Snapshot
    decreases |hs|
  {
    if hs == [] then s else ApplySteps(Step(s, i, hs[0]), i, hs[1..])
  }

  /** While a tween runs, its steps change only the row's override (to the
      last height) and the log (one request for row `i` per step). */
  lemma {:induction false} StepsTouchOnlyTheirRow(s: Snapshot, i: int, hs: seq<int>)
    requires i in LiveRows(s.tweens)
    ensures var r := ApplySteps(s, i, hs);
      && r.expanded == s.expanded && r.tweens == s.tweens && r.table == s.table && r.animating == s.animating
      && r.override.Keys == s.override.Keys + {i} - (if hs == [] && i !in s.override then {i} else {})
      && (forall j :: j != i && j in s.override ==> r.override[j] == s.override[j])
      && (hs != [] ==> r.override[i] == Number(hs[|hs| - 1]))
      && (hs == [] ==> r.override == s.override)
      && |r.log| == |s.log| + |hs| && r.log[..|s.log|] == s.log
      && (forall k :: |s.log| <= k < |r.log| ==> r.log[k] == Request(Some(i), s.table.Some?))
    decreases |hs|
  {
    if hs != [] {
      var s1 := Step(s, i, hs[0]);
      StepsTouchOnlyTheirRow(s1, i, hs[1..]);
      var r := ApplySteps(s1, i, hs[1..]);
      assert r.log[..|s1.log|] == s1.log;
      assert r.log[..|s.log|] == r.log[..|s1.log|][..|s.log|];
      assert r.log[|s.log|] == r.log[..|s1.log|][|s.log|];
      if |hs| > 1 {
        assert hs[1..][|hs[1..]| - 1] == hs[|hs| - 1];
      }
    }
  }

  /** Animating a collapsed row flips it to expanded before any step, with a
      tween from the collapsed height to the expanded height. */
  lemma AnimateCollapsedRow(dims: seq<Dimensions>, s: Snapshot, i: int)
    requires 0 <= i < |dims| && !IsExpanded(s.expanded, i)
    ensures var r := StartAnimation(dims, s, i);
      && IsExpanded(r.expanded, i)
      && r.tweens[i] == Tween(dims[i].collapsedHeight, dims[i].expandedHeight, false, true)
      && r.override[i] == HeightRecord(dims[i].collapsedHeight)
      && r.log == s.log + [Request(None, s.table.Some?)]
  {
  }

  /** Animating an expanded row keeps it expanded (its drawer content stays
      mounted) with a tween from the expanded height to the collapsed height. */
  lemma AnimateExpandedRow(dims: seq<Dimensions>, s: Snapshot, i: int)
    requires 0 <= i < |dims| && IsExpanded(s.expanded, i)
    ensures var r := StartAnimation(dims, s, i);
      && r.expanded == s.expanded
      && r.tweens[i] == Tween(dims[i].expandedHeight, dims[i].collapsedHeight, true, true)
      && r.override[i] == HeightRecord(dims[i].expandedHeight)
      && r.log == s.log
  {
  }

  /** A step stores the new height for its own row only and requests a
      recompute from that row. */
  lemma StepWritesOwnRow(dims: seq<Dimensions>, s: Snapshot, i: int, h: int, j: int)
    requires i in LiveRows(s.tweens)
    requires j != i
    ensures Step(s, i, h).override[i] == Number(h)
    ensures j in Step(s, i, h).override <==> j in s.override
    ensures j in s.override ==> Step(s, i, h).override[j] == s.override[j]
    ensures Step(s, i, h).log[|s.log|] == Request(Some(i), s.table.Some?)
    ensures 0 <= j < |dims| ==> RowHeight(dims, Step(s, i, h), j) == RowHeight(dims, s, j)
  {
  }

  /** The `||` of `rowHeight`: a step to height 0 leaves the row at its static height. */
  lemma ZeroStepFallsThrough(dims: seq<Dimensions>, s: Snapshot, i: int)
    requires 0 <= i < |dims| && i in LiveRows(s.tweens)
    ensures RowHeight(dims, Step(s, i, 0), i) == Number(StaticHeight(dims[i], IsExpanded(s.expanded, i)))
  {
  }

  /** A finished expansion: whatever the steps were, the row ends expanded, with
      no override, at its expanded height, and its drawer content is shown;
      both with `onComplete` as written and with the correction. */
  lemma FinishedExpand<E>(dims: seq<Dimensions>, s: Snapshot, i: int, hs: seq<int>,
                          drawerContent: RowProps<E> -> E, rp: RowProps<E>)
    requires 0 <= i < |dims| && !IsExpanded(s.expanded, i)
    requires rp.index == i
    ensures var r := Complete(ApplySteps(StartAnimation(dims, s, i), i, hs), i);
      && IsExpanded(r.expanded, i)
      && i !in r.override && i !in LiveRows(r.tweens)
      && RowHeight(dims, r, i) == Number(dims[i].expandedHeight)
      && RenderRowAt(dims, r, drawerContent, rp).drawer.children == Node(drawerContent(rp))
    ensures var r := CompleteAsWritten(ApplySteps(StartAnimation(dims, s, i), i, hs), i);
      && IsExpanded(r.expanded, i)
      && i !in r.override && i !in LiveRows(r.tweens)
      && RowHeight(dims, r, i) == Number(dims[i].expandedHeight)
      && RenderRowAt(dims, r, drawerContent, rp).drawer.children == Node(drawerContent(rp))
  {
    var s1 := StartAnimation(dims, s, i);
    StepsTouchOnlyTheirRow(s1, i, hs);
  }

  /** A finished collapse: the row stays expanded through every step, and ends
      collapsed, with no override, at its collapsed height, its drawer empty;
      both with `onComplete` as written and with the correction. */
  lemma FinishedCollapse<E>(dims: seq<Dimensions>, s: Snapshot, i: int, hs: seq<int>,
                            drawerContent: RowProps<E> -> E, rp: RowProps<E>)
    requires 0 <= i < |dims| && IsExpanded(s.expanded, i)
    requires rp.index == i
    ensures IsExpanded(ApplySteps(StartAnimation(dims, s, i), i, hs).expanded, i)
    ensures var r := Complete(ApplySteps(StartAnimation(dims, s, i), i, hs), i);
      && !IsExpanded(r.expanded, i)
      && i !in r.override && i !in LiveRows(r.tweens)
      && RowHeight(dims, r, i) == Number(dims[i].collapsedHeight)
      && RenderRowAt(dims, r, drawerContent, rp).drawer.children == EmptyString
    ensures var r := CompleteAsWritten(ApplySteps(StartAnimation(dims, s, i), i, hs), i);
      && !IsExpanded(r.expanded, i)
      && i !in r.override && i !in LiveRows(r.tweens)
      && RowHeight(dims, r, i) == Number(dims[i].collapsedHeight)
      && RenderRowAt(dims, r, drawerContent, rp).drawer.children == EmptyString
  {
    var s1 := StartAnimation(dims, s, i);
    StepsTouchOnlyTheirRow(s1, i, hs);
  }

  /** A tween completes at most once: a second completion changes nothing, so
      the final flip of a collapse is never applied twice, as written or
      with the correction. */
  lemma CompleteIsFinal(s: Snapshot, i: int)
    ensures CompleteAsWritten(CompleteAsWritten(s, i), i) == CompleteAsWritten(s, i)
    ensures Complete(Complete(s, i), i) == Complete(s, i)
  {
  }

  /** Restarting mid-animation: the row is expanded by then whichever way the
      first animation went, so the new tween always collapses, from the static
      expanded height rather than from the last interpolated height, and it
      replaces the old one as the row's only tween. */
  lemma RestartCollapsesFromExpandedHeight(dims: seq<Dimensions>, s: Snapshot, i: int, hs: seq<int>)
    requires 0 <= i < |dims|
    ensures var mid := ApplySteps(StartAnimation(dims, s, i), i, hs);
      var r := StartAnimation(dims, mid, i);
      && r.tweens[i] == Tween(dims[i].expandedHeight, dims[i].collapsedHeight, true, true)
      && r.override[i] == HeightRecord(dims[i].expandedHeight)
      && r.expanded == mid.expanded
  {
    var s1 := StartAnimation(dims, s, i);
    StepsTouchOnlyTheirRow(s1, i, hs);
  }

  /** A plain toggle between two animated toggles collapses the row first, so
      the second animated toggle expands it again, from the collapsed height. */
  lemma ToggleBetweenRestartsExpands(dims: seq<Dimensions>, s: Snapshot, i: int, hs: seq<int>)
    requires 0 <= i < |dims|
    ensures var mid := ToggleDrawer(ApplySteps(StartAnimation(dims, s, i), i, hs), i);
      var r := StartAnimation(dims, mid, i);
      && r.tweens[i] == Tween(dims[i].collapsedHeight, dims[i].expandedHeight, false, true)
      && r.override[i] == HeightRecord(dims[i].collapsedHeight)
      && IsExpanded(r.expanded, i)
  {
    var s1 := StartAnimation(dims, s, i);
    StepsTouchOnlyTheirRow(s1, i, hs);
  }

  /** An interrupted animation, once its replacement has run to completion,
      leaves the row collapsed at its collapsed height: one flip, not two;
      both with `onComplete` as written and with the correction. */
  lemma InterruptedAnimationEndsCollapsed(dims: seq<Dimensions>, s: Snapshot, i: int, hs1: seq<int>, hs2: seq<int>)
    requires 0 <= i < |dims|
    ensures var mid := ApplySteps(StartAnimation(dims, s, i), i, hs1);
      var r := Complete(ApplySteps(StartAnimation(dims, mid, i), i, hs2), i);
      && !IsExpanded(r.expanded, i)
      && i !in r.override && i !in LiveRows(r.tweens)
      && RowHeight(dims, r, i) == Number(dims[i].collapsedHeight)
    ensures var mid := ApplySteps(StartAnimation(dims, s, i), i, hs1);
      var r := CompleteAsWritten(ApplySteps(StartAnimation(dims, mid, i), i, hs2), i);
      && !IsExpanded(r.expanded, i)
      && i !in r.override && i !in LiveRows(r.tweens)
      && RowHeight(dims, r, i) == Number(dims[i].collapsedHeight)
  {
    var s1 := StartAnimation(dims, s, i);
    StepsTouchOnlyTheirRow(s1, i, hs1);
    var mid := ApplySteps(s1, i, hs1);
    var s2 := StartAnimation(dims, mid, i);
    StepsTouchOnlyTheirRow(s2, i, hs2);
  }

  // ---------------------------------------------------------------------------
  // The invariant over every sequence of operations

  /** What can happen to the component: a user toggle, an animated toggle, a
      tween step or completion delivered by the animation loop, a ref change. */
  datatype Event =
    | Toggle(index: int)
    | Animate(index: int)
    | TweenStep(index: int, height: int)
    | TweenComplete(index: int)
    | SetRef(element: Option<TableHandle>)

  /** An animated toggle reads the row's dimensions, so its row must exist. */
  predicate Allowed(dims: seq<Dimensions>, e: Event) {
    e.Animate? ==> 0 <= e.index < |dims|
  }

  function Apply(dims: seq<Dimensions>, s: Snapshot, e: Event): Snapshot
    requires Allowed(dims, e)
  {
    match e
    case Toggle(i) => ToggleDrawer(s, i)
    case Animate(i) => StartAnimation(dims, s, i)
    case TweenStep(i, h) => Step(s, i, h)
    case TweenComplete(i) => Complete(s, i)
    case SetRef(element) => SetTableRef(s, element)
  }

  function Run(dims: seq<Dimensions>, s: Snapshot, es: seq<Event>): Snapshot
    requires forall k :: 0 <= k < |es| ==> Allowed(dims, es[k])
    decreases |es|
  {
    if es == [] then s else Run(dims, Apply(dims, s, es[0]), es[1..])
  }

  /** `onComplete` as written, as an event. */
  function ApplyAsWritten(dims: seq<Dimensions>, s: Snapshot, e: Event): Snapshot
    requires Allowed(dims, e)
  {
    if e.TweenComplete? then CompleteAsWritten(s, e.index) else Apply(dims, s, e)
  }

  function RunAsWritten(dims: seq<Dimensions>, s: Snapshot, es: seq<Event>): Snapshot
    requires forall k :: 0 <= k < |es| ==> Allowed(dims, es[k])
    decreases |es|
  {
    if es == [] then s else RunAsWritten(dims, ApplyAsWritten(dims, s, es[0]), es[1..])
  }

  lemma InitialInv(dims: seq<Dimensions>)
    ensures Inv(dims, Initial())
  {
  }

  lemma ToggleDrawerKeepsInv(dims: seq<Dimensions>, s: Snapshot, i: int)
    requires CoreInv(dims, s)
    ensures CoreInv(dims, ToggleDrawer(s, i))
    ensures Inv(dims, s) ==> Inv(dims, ToggleDrawer(s, i))
    ensures FlagOnlyWhileAnimating(s) ==> FlagOnlyWhileAnimating(ToggleDrawer(s, i))
  {
  }

  lemma SetTableRefKeepsInv(dims: seq<Dimensions>, s: Snapshot, element: Option<TableHandle>)
    requires CoreInv(dims, s)
    ensures CoreInv(dims, SetTableRef(s, element))
    ensures Inv(dims, s) ==> Inv(dims, SetTableRef(s, element))
    ensures FlagOnlyWhileAnimating(s) ==> FlagOnlyWhileAnimating(SetTableRef(s, element))
  {
  }

  lemma StartAnimationKeepsInv(dims: seq<Dimensions>, s: Snapshot, i: int)
    requires CoreInv(dims, s) && 0 <= i < |dims|
    ensures Inv(dims, StartAnimation(dims, s, i))
  {
    var r := StartAnimation(dims, s, i);
    assert LiveRows(r.tweens) == LiveRows(s.tweens) + {i};
  }

  lemma StepKeepsInv(dims: seq<Dimensions>, s: Snapshot, i: int, h: int)
    requires CoreInv(dims, s)
    ensures CoreInv(dims, Step(s, i, h))
    ensures Inv(dims, s) ==> Inv(dims, Step(s, i, h))
    ensures FlagOnlyWhileAnimating(s) ==> FlagOnlyWhileAnimating(Step(s, i, h))
  {
    if i in LiveRows(s.tweens) {
      var r := Step(s, i, h);
      assert r.override.Keys == s.override.Keys;
    }
  }

  /** The corrected completion keeps the invariant, flag included. */
  lemma CompleteKeepsInv(dims: seq<Dimensions>, s: Snapshot, i: int)
    requires Inv(dims, s)
    ensures Inv(dims, Complete(s, i))
  {
    if i in LiveRows(s.tweens) {
      var r := Complete(s, i);
      assert LiveRows(r.tweens) == LiveRows(s.tweens) - {i};
    }
  }

  /** The completion as written keeps the core invariant, and never leaves the
      flag raised without a running tween. */
  lemma CompleteAsWrittenKeepsCoreInv(dims: seq<Dimensions>, s: Snapshot, i: int)
    requires CoreInv(dims, s)
    ensures CoreInv(dims, CompleteAsWritten(s, i))
    ensures FlagOnlyWhileAnimating(s) ==> FlagOnlyWhileAnimating(CompleteAsWritten(s, i))
  {
    if i in LiveRows(s.tweens) {
      var r := CompleteAsWritten(s, i);
      assert LiveRows(r.tweens) == LiveRows(s.tweens) - {i};
    }
  }

  /** With the correction of line 157, every sequence of operations from a
      state that satisfies the invariant keeps it. */
  lemma {:induction false} RunKeepsInv(dims: seq<Dimensions>, s: Snapshot, es: seq<Event>)
    requires forall k :: 0 <= k < |es| ==> Allowed(dims, es[k])
    requires Inv(dims, s)
    ensures Inv(dims, Run(dims, s, es))
    decreases |es|
  {
    if es != [] {
      var s1 := Apply(dims, s, es[0]);
      match es[0] {
        case Toggle(i) => ToggleDrawerKeepsInv(dims, s, i);
        case Animate(i) => StartAnimationKeepsInv(dims, s, i);
        case TweenStep(i, h) => StepKeepsInv(dims, s, i, h);
        case TweenComplete(i) => CompleteKeepsInv(dims, s, i);
        case SetRef(element) => SetTableRefKeepsInv(dims, s, element);
      }
      RunKeepsInv(dims, s1, es[1..]);
    }
  }

  /** For the program as written, every sequence of operations keeps the core
      invariant, and `_animating` is never raised without a running tween. */
  lemma {:induction false} RunAsWrittenKeepsCoreInv(dims: seq<Dimensions>, s: Snapshot, es: seq<Event>)
    requires forall k :: 0 <= k < |es| ==> Allowed(dims, es[k])
    requires CoreInv(dims, s) && FlagOnlyWhileAnimating(s)
    ensures CoreInv(dims, RunAsWritten(dims, s, es))
    ensures FlagOnlyWhileAnimating(RunAsWritten(dims, s, es))
    decreases |es|
  {
    if es != [] {
      var s1 := ApplyAsWritten(dims, s, es[0]);
      match es[0] {
        case Toggle(i) => ToggleDrawerKeepsInv(dims, s, i);
        case Animate(i) => StartAnimationKeepsInv(dims, s, i);
        case TweenStep(i, h) => StepKeepsInv(dims, s, i, h);
        case TweenComplete(i) => CompleteAsWrittenKeepsCoreInv(dims, s, i);
        case SetRef(element) => SetTableRefKeepsInv(dims, s, element);
      }
      RunAsWrittenKeepsCoreInv(dims, s1, es[1..]);
    }
  }

  /** A row without a running tween, in a state that satisfies the core
      invariant (so in every reachable state, as written or corrected), is at
      rest: its height is the static height for its flag. */
  lemma RestingRowHasStaticHeight(dims: seq<Dimensions>, s: Snapshot, i: int)
    requires CoreInv(dims, s) && 0 <= i < |dims|
    requires i !in LiveRows(s.tweens)
    ensures RowHeight(dims, s, i) == Number(StaticHeight(dims[i], IsExpanded(s.expanded, i)))
  {
  }

  /** With the correction of line 157: once `_animating` is down, every row is at rest. */
  lemma NoAnimationMeansStaticHeights(dims: seq<Dimensions>, s: Snapshot)
    requires Inv(dims, s) && !s.animating
    ensures forall i :: 0 <= i < |dims| ==>
      RowHeight(dims, s, i) == Number(StaticHeight(dims[i], IsExpanded(s.expanded, i)))
  {
    forall i | 0 <= i < |dims|
      ensures RowHeight(dims, s, i) == Number(StaticHeight(dims[i], IsExpanded(s.expanded, i)))
    {
      assert i !in LiveRows(s.tweens);
    }
  }

  // ---------------------------------------------------------------------------
  // The shared `_animating` flag

  /** As written, the first tween to complete lowers `_animating` although
      another row's tween is still running: with rows 0 and 1 animating from a
      mounted table, completing row 0 leaves row 1 live and the flag down, so
      the frame loop stops rescheduling itself and row 1 stops advancing. */
  lemma CompletionClearsFlagWhileTweenLive()
    ensures var dims := [Dimensions(52, 100), Dimensions(52, 100)];
      var s := Run(dims, Initial(), [SetRef(Some(TableHandle(0))), Animate(0), Animate(1)]);
      var r := CompleteAsWritten(s, 0);
      && Inv(dims, s)
      && 1 in LiveRows(r.tweens)
      && !r.animating
      && !Inv(dims, r)
  {
    var dims := [Dimensions(52, 100), Dimensions(52, 100)];
    var s0 := SetTableRef(Initial(), Some(TableHandle(0)));
    var s1 := StartAnimation(dims, s0, 0);
    var s2 := StartAnimation(dims, s1, 1);
    assert Run(dims, Initial(), [SetRef(Some(TableHandle(0))), Animate(0), Animate(1)]) == s2 by {
      var es := [SetRef(Some(TableHandle(0))), Animate(0), Animate(1)];
      assert es[1..] == [Animate(0), Animate(1)];
      assert es[1..][1..] == [Animate(1)];
      assert es[1..][1..][1..] == [];
    }
    RunKeepsInv(dims, Initial(), [SetRef(Some(TableHandle(0))), Animate(0), Animate(1)]);
    var r := CompleteAsWritten(s2, 0);
    assert 1 in LiveRows(r.tweens);
  }

  /** As written, `_animating` can be down while a row still sits at an
      interpolated height: rows 0 and 1 animate, row 1 steps to 70, row 0
      completes. No frame loop runs any more, yet row 1 is not at rest. */
  lemma FlagDownWhileRowMidAnimation()
    ensures var dims := [Dimensions(52, 100), Dimensions(52, 100)];
      var s := RunAsWritten(dims, Initial(),
                 [SetRef(Some(TableHandle(0))), Animate(0), Animate(1), TweenStep(1, 70), TweenComplete(0)]);
      && !s.animating
      && 1 in LiveRows(s.tweens)
      && RowHeight(dims, s, 1) == Number(70)
      && RowHeight(dims, s, 1) != Number(StaticHeight(dims[1], IsExpanded(s.expanded, 1)))
  {
    var dims := [Dimensions(52, 100), Dimensions(52, 100)];
    var es := [SetRef(Some(TableHandle(0))), Animate(0), Animate(1), TweenStep(1, 70), TweenComplete(0)];
    var s0 := SetTableRef(Initial(), Some(TableHandle(0)));
    var s1 := StartAnimation(dims, s0, 0);
    var s2 := StartAnimation(dims, s1, 1);
    var s3 := Step(s2, 1, 70);
    var s4 := CompleteAsWritten(s3, 0);
    assert es[1..] == [Animate(0), Animate(1), TweenStep(1, 70), TweenComplete(0)];
    assert es[1..][1..] == [Animate(1), TweenStep(1, 70), TweenComplete(0)];
    assert es[1..][1..][1..] == [TweenStep(1, 70), TweenComplete(0)];
    assert es[1..][1..][1..][1..] == [TweenComplete(0)];
    assert es[1..][1..][1..][1..][1..] == [];
    assert RunAsWritten(dims, Initial(), es) == s4;
    assert 1 in LiveRows(s4.tweens);
  }

  /** With the correction, after any tween completes the flag is raised exactly
      while some tween is still running. */
  lemma CompletionKeepsFlagWhileTweenLive(dims: seq<Dimensions>, s: Snapshot, i: int)
    requires Inv(dims, s)
    ensures Complete(s, i).animating <==> LiveRows(Complete(s, i).tweens) != {}
  {
    CompleteKeepsInv(dims, s, i);
  }
}
