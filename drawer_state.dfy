/** The state of the `WithDrawer` component of src/drawer/with-drawer.js as a
    value, and each of its operations as a function from the old state to the
    new one. The class in with_drawer.dfy is proved against these functions;
    the lemmas in drawer_properties.dfy are stated about them. */
module DrawerState {
  import opened RowRenderer

  datatype Option<T> = None | Some(value: T)

  /** One entry of the `rowsDimensions` prop. */
  datatype Dimensions = Dimensions(collapsedHeight: int, expandedHeight: int)

  /** An entry of `rowsHeight`: the object `{ height }` written when an
      animation starts, or the plain number written by each tween step. */
  datatype HeightValue = Number(n: int) | HeightRecord(height: int)

  /** JavaScript truthiness of a `rowsHeight` entry: an object is always
      truthy, the number 0 is not. */
  predicate Truthy(v: HeightValue) {
    v.HeightRecord? || v.n != 0
  }

  /** A tween.js tween bound to one row: its start and target heights, the
      row's expanded flag when it began (captured by its callbacks), and
      whether it is still in tween.js's update list. */
  datatype Tween = Tween(start: int, target: int, wasExpanded: bool, live: bool)

  /** The mounted react-virtualized `Table`, known only by identity. */
  datatype TableHandle = TableHandle(id: nat)

  /** A call `this.table.recomputeRowHeights(from)`; `delivered` is false when
      `this.table` was unset, so the call threw a TypeError instead. */
  datatype Request = Request(from: Option<int>, delivered: bool)

  /** The component's fields: `state.rowsExpandedState`, `rowsHeight`,
      `rowsTween`, `table`, the recompute calls made so far, and `_animating`. */
  datatype Snapshot = Snapshot(
    expanded: map<int, bool>,
    override: map<int, HeightValue>,
    tweens: map<int, Tween>,
    table: Option<TableHandle>,
    log: seq<Request>,
    animating: bool)

  /** The constructor's state: nothing expanded, no height override, no tween, no table. */
  function Initial(): (s: Snapshot)
    ensures forall i :: !IsExpanded(s.expanded, i) && i !in s.override
    ensures LiveRows(s.tweens) == {} && !s.animating
    ensures s.table == None && s.log == []
  {
    Snapshot(map[], map[], map[], None, [], false)
  }

  /** `rowsExpandedState[i]` read as a truth value: an absent entry is collapsed. */
  predicate IsExpanded(m: map<int, bool>, i: int) {
    i in m && m[i]
  }

  /** The height of a row at rest with the given flag. */
  function StaticHeight(d: Dimensions, expanded: bool): int {
    if expanded then d.expandedHeight else d.collapsedHeight
  }

  /** Rows whose tween is still running. */
  function LiveRows(tweens: map<int, Tween>): set<int> {
    set i | i in tweens && tweens[i].live
  }

  /** `rowHeight({ index })`: a truthy override wins, otherwise the static
      height for the row's flag. */
  function RowHeight(dims: seq<Dimensions>, s: Snapshot, i: int): (h: HeightValue)
    requires 0 <= i < |dims|
    ensures i in s.override && Truthy(s.override[i]) ==> h == s.override[i]
    ensures !(i in s.override && Truthy(s.override[i])) ==>
              h == Number(if IsExpanded(s.expanded, i) then dims[i].expandedHeight else dims[i].collapsedHeight)
  {
    var initialHeight := StaticHeight(dims[i], IsExpanded(s.expanded, i));
    if i in s.override && Truthy(s.override[i]) then s.override[i] else Number(initialHeight)
  }

  /** The props react-virtualized passes to a row renderer (those the renderer
      reads; `key` only goes to React's reconciliation). */
  datatype RowProps<E> = RowProps(index: int, className: string, columns: E, style: Style)

  /** `rowRenderer(rowProps)`: look up the row's dimensions and flag and render
      the row with the drawer content built from the same props. */
  function RenderRowAt<E>(dims: seq<Dimensions>, s: Snapshot, drawerContent: RowProps<E> -> E, rp: RowProps<E>): (r: RowElement<E>)
    requires 0 <= rp.index < |dims|
    ensures r.className == rp.className && r.style == OuterStyle(rp.style)
    ensures r.head == SubRow(dims[rp.index].collapsedHeight, Node(rp.columns))
    ensures r.drawer.height == dims[rp.index].expandedHeight - dims[rp.index].collapsedHeight
    ensures r.drawer.children == if IsExpanded(s.expanded, rp.index) then Node(drawerContent(rp)) else EmptyString
  {
    var d := dims[rp.index];
    Render(Props(rp.className, rp.columns, rp.style, d.collapsedHeight, d.expandedHeight,
                 drawerContent(rp), IsExpanded(s.expanded, rp.index)))
  }

  /** `this.table.recomputeRowHeights(from)`, recorded rather than performed. */
  function Recompute(s: Snapshot, from: Option<int>): (r: Snapshot)
    ensures r.log == s.log + [Request(from, s.table.Some?)]
    ensures r == s.(log := r.log)
  {
    s.(log := s.log + [Request(from, s.table.Some?)])
  }

  /** `setTableRef(element)`; React passes null when the table unmounts. */
  function SetTableRef(s: Snapshot, element: Option<TableHandle>): (r: Snapshot)
    ensures r.table == element && r == s.(table := element)
  {
    s.(table := element)
  }

  /** `toggleDrawer(index)`: the functional `setState` negates the row's flag
      (an absent flag counts as false), then its callback asks the table to
      recompute every row. */
  function ToggleDrawer(s: Snapshot, i: int): (r: Snapshot)
    ensures i in r.expanded && r.expanded[i] == !IsExpanded(s.expanded, i)
    ensures forall j :: j != i ==> (j in r.expanded <==> j in s.expanded)
    ensures forall j :: j != i && j in s.expanded ==> r.expanded[j] == s.expanded[j]
    ensures r.log == s.log + [Request(None, s.table.Some?)]
    ensures r.override == s.override && r.tweens == s.tweens && r.table == s.table && r.animating == s.animating
  {
    Recompute(s.(expanded := s.expanded[i := !IsExpanded(s.expanded, i)]), None)
  }

  /** `toggleDrawerWithAnimation(index)`: raise `_animating`; a collapsed row
      is flipped to expanded at once; the override becomes the object
      `{ height }` of the static height for the old flag; the previous tween of
      the row is stopped and replaced by one towards the other static height. */
  function StartAnimation(dims: seq<Dimensions>, s: Snapshot, i: int): (r: Snapshot)
    requires 0 <= i < |dims|
    ensures var was := IsExpanded(s.expanded, i);
      && IsExpanded(r.expanded, i)
      && r.override == s.override[i := HeightRecord(StaticHeight(dims[i], was))]
      && r.tweens == s.tweens[i := Tween(StaticHeight(dims[i], was), StaticHeight(dims[i], !was), was, true)]
      && r.log == (if was then s.log else s.log + [Request(None, s.table.Some?)])
      && (was ==> r.expanded == s.expanded)
    ensures forall j :: j != i ==> (j in r.expanded <==> j in s.expanded)
    ensures forall j :: j != i && j in s.expanded ==> r.expanded[j] == s.expanded[j]
    ensures r.table == s.table && r.animating
  {
    var was := IsExpanded(s.expanded, i);
    var s1 := s.(animating := true);
    var s2 := if !was then ToggleDrawer(s1, i) else s1;
    var height := StaticHeight(dims[i], was);
    var targetHeight := StaticHeight(dims[i], !was);
    s2.(override := s2.override[i := HeightRecord(height)],
        tweens := s2.tweens[i := Tween(height, targetHeight, was, true)])
  }

  /** One `onUpdate` of the row's tween, with the interpolated height `h`:
      store it as a plain number and ask the table to recompute from row `i`.
      A row whose tween is not running receives no update. */
  function Step(s: Snapshot, i: int, h: int): (r: Snapshot)
    ensures i !in LiveRows(s.tweens) ==> r == s
    ensures i in LiveRows(s.tweens) ==>
      && r.override == s.override[i := Number(h)]
      && r.log == s.log + [Request(Some(i), s.table.Some?)]
      && r == s.(override := r.override, log := r.log)
  {
    if i in s.tweens && s.tweens[i].live then
      Recompute(s.(override := s.override[i := Number(h)]), Some(i))
    else
      s
  }

  /** The part of `onComplete` every reading agrees on: the override is
      deleted, the tween leaves tween.js's update list, and a row that was
      expanded when the tween began is toggled back to collapsed. */
  function FinishTween(s: Snapshot, i: int): (r: Snapshot)
    requires i in LiveRows(s.tweens)
    ensures r.override == s.override - {i}
    ensures r.tweens == s.tweens[i := s.tweens[i].(live := false)]
    ensures r.expanded == if s.tweens[i].wasExpanded then ToggleDrawer(s, i).expanded else s.expanded
    ensures r.log == if s.tweens[i].wasExpanded then s.log + [Request(None, s.table.Some?)] else s.log
    ensures r.table == s.table && r.animating == s.animating
  {
    var t := s.tweens[i];
    var s1 := s.(override := s.override - {i}, tweens := s.tweens[i := t.(live := false)]);
    if t.wasExpanded then ToggleDrawer(s1, i) else s1
  }

  /** `onComplete` as written: `_animating` is cleared whatever other tweens
      are still running. */
  function CompleteAsWritten(s: Snapshot, i: int): (r: Snapshot)
    ensures i !in LiveRows(s.tweens) ==> r == s
    ensures i in LiveRows(s.tweens) ==> !r.animating && r == FinishTween(s, i).(animating := false)
  {
    if i in s.tweens && s.tweens[i].live then FinishTween(s, i).(animating := false) else s
  }

  /** `onComplete` with the flag corrected: `_animating` stays raised while any
      other tween is running. A tween that is not running does not complete. */
  function Complete(s: Snapshot, i: int): (r: Snapshot)
    ensures i !in LiveRows(s.tweens) ==> r == s
    ensures i in LiveRows(s.tweens) ==>
      && r == FinishTween(s, i).(animating := r.animating)
      && (r.animating <==> LiveRows(s.tweens) - {i} != {})
  {
    if i in s.tweens && s.tweens[i].live then
      var r := FinishTween(s, i);
      assert LiveRows(r.tweens) == LiveRows(s.tweens) - {i};
      r.(animating := LiveRows(r.tweens) != {})
    else
      s
  }
}
