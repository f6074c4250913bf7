/** The `WithDrawer` component of src/drawer/with-drawer.js as an object whose
    methods update its fields in place. Each method is proved to take the
    fields to the state that the matching function of DrawerState computes,
    and to keep the invariant of DrawerProperties. */
module Drawer {
  import opened RowRenderer
  import opened DrawerState
  import opened DrawerProperties

  class WithDrawer {
    /** The `rowsDimensions` prop, fixed for the life of the component. */
    const dims: seq<Dimensions>
    /** `this.state.rowsExpandedState`. */
    var expanded: map<int, bool>
    /** `this.rowsHeight`: the in-flight height of each animating row. */
    var override: map<int, HeightValue>
    /** `this.rowsTween`. */
    var tweens: map<int, Tween>
    /** `this.table`, unset until `setTableRef` is called. */
    var table: Option<TableHandle>
    /** Every `recomputeRowHeights` call made on `this.table`, in order. */
    var recomputeLog: seq<Request>
    /** `this._animating`. */
    var animating: bool

    function Current(): (s: Snapshot)
      reads this
    {
      Snapshot(expanded, override, tweens, table, recomputeLog, animating)
    }

    ghost predicate Valid()
      reads this
    {
      Inv(dims, Current())
    }

    constructor (rowsDimensions: seq<Dimensions>)
      ensures dims == rowsDimensions
      ensures Current() == Initial()
      ensures Valid()
    {
      dims := rowsDimensions;
      expanded := map[];
      override := map[];
      tweens := map[];
      table := None;
      recomputeLog := [];
      animating := false;
      new;
      InitialInv(rowsDimensions);
    }

    /** `this.table.recomputeRowHeights(from)`; with no table it throws. */
    method RecomputeRowHeights(from: Option<int>)
      modifies this`recomputeLog
      ensures recomputeLog == old(recomputeLog) + [Request(from, table.Some?)]
    {
      recomputeLog := recomputeLog + [Request(from, table.Some?)];
    }

    method SetTableRef(element: Option<TableHandle>)
      modifies this
      ensures Current() == DrawerState.SetTableRef(old(Current()), element)
      ensures old(Valid()) ==> Valid()
    {
      ghost var before := Current();
      table := element;
      if Inv(dims, before) {
        SetTableRefKeepsInv(dims, before, element);
      }
    }

    /** `toggleDrawer(index)`: the state update, then its callback. */
    method ToggleDrawer(index: int)
      modifies this
      ensures Current() == DrawerState.ToggleDrawer(old(Current()), index)
      ensures old(Valid()) ==> Valid()
    {
      ghost var before := Current();
      expanded := expanded[index := !IsExpanded(expanded, index)];
      RecomputeRowHeights(None);
      if Inv(dims, before) {
        ToggleDrawerKeepsInv(dims, before, index);
      }
    }

    /** `toggleDrawerWithAnimation(index)` up to the start of the tween; the
        frame loop it then starts is outside the model. */
    method ToggleDrawerWithAnimation(index: int)
      requires 0 <= index < |dims|
      modifies this
      ensures Current() == StartAnimation(dims, old(Current()), index)
      ensures old(Valid()) ==> Valid()
    {
      ghost var before := Current();
      animating := true;
      var wasExpanded := IsExpanded(expanded, index);
      if !wasExpanded {
        ToggleDrawer(index);
      }
      var height := if wasExpanded then dims[index].expandedHeight else dims[index].collapsedHeight;
      var targetHeight := if wasExpanded then dims[index].collapsedHeight else dims[index].expandedHeight;
      override := override[index := HeightRecord(height)];
      if index in tweens && tweens[index].live {
        // the previous tween's `stop()`; the new tween then takes its key
        tweens := tweens[index := tweens[index].(live := false)];
      }
      tweens := tweens[index := Tween(height, targetHeight, wasExpanded, true)];
      if Inv(dims, before) {
        StartAnimationKeepsInv(dims, before, index);
      }
    }

    /** The tween's `onUpdate` with interpolated height `h`. */
    method TweenStep(index: int, h: int)
      modifies this
      ensures Current() == Step(old(Current()), index, h)
      ensures old(Valid()) ==> Valid()
    {
      ghost var before := Current();
      if index in tweens && tweens[index].live {
        override := override[index := Number(h)];
        RecomputeRowHeights(Some(index));
      }
      if Inv(dims, before) {
        StepKeepsInv(dims, before, index, h);
      }
    }

    /** The tween's `onComplete`, with `_animating` lowered only once no tween
        is left running. */
    method TweenComplete(index: int)
      modifies this
      ensures Current() == Complete(old(Current()), index)
      ensures old(Valid()) ==> Valid()
    {
      ghost var before := Current();
      if index in tweens && tweens[index].live {
        var wasExpanded := tweens[index].wasExpanded;
        override := override - {index};
        tweens := tweens[index := tweens[index].(live := false)];
        if wasExpanded {
          ToggleDrawer(index);
        }
        animating := LiveRows(tweens) != {};
      }
      if Inv(dims, before) {
        CompleteKeepsInv(dims, before, index);
      }
    }

    /** `rowHeight({ index })`, the callback react-virtualized lays rows out with.
        In a valid state a row whose tween is not running is at rest. */
    function RowHeight(index: int): (h: HeightValue)
      reads this
      requires 0 <= index < |dims|
      ensures index in override && Truthy(override[index]) ==> h == override[index]
      ensures !(index in override && Truthy(override[index])) ==>
                h == Number(StaticHeight(dims[index], IsExpanded(expanded, index)))
      ensures Valid() && index !in LiveRows(tweens) ==>
                h == Number(StaticHeight(dims[index], IsExpanded(expanded, index)))
    {
      DrawerState.RowHeight(dims, Current(), index)
    }

    /** `rowRenderer(rowProps)`, the callback react-virtualized renders rows with. */
    function RowRenderer<E>(drawerContent: RowProps<E> -> E, rp: RowProps<E>): (r: RowElement<E>)
      reads this
      requires 0 <= rp.index < |dims|
      ensures r.head.height + r.drawer.height == dims[rp.index].expandedHeight
      ensures r.drawer.children == if IsExpanded(expanded, rp.index) then Node(drawerContent(rp)) else EmptyString
    {
      RenderRowAt(dims, Current(), drawerContent, rp)
    }
  }
}
