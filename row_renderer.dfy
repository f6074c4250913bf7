/** The row renderer of src/drawer/row-renderer.js: a pure description of one
    table row split into a head sub-row (the row's columns) and a drawer
    sub-row (the drawer content, shown only while the row is expanded). */
module RowRenderer {

  /** A value in a React inline style object: a CSS string or a number of pixels. */
  datatype StyleValue = Str(s: string) | Px(n: int)

  type Style = map<string, StyleValue>

  /** What a sub-row holds: a React node, or the empty string `''`. */
  datatype Slot<E> = Node(e: E) | EmptyString

  /** A `div` of class `ReactVirtualized__Table__sub-row` with style
      `{ display: 'flex', height }`; only the height and the children vary. */
  datatype SubRow<E> = SubRow(height: int, children: Slot<E>)

  /** The outer `div`: the caller's class name, the merged style and the two sub-rows. */
  datatype RowElement<E> = RowElement(className: string, style: Style, head: SubRow<E>, drawer: SubRow<E>)

  /** The props the renderer reads (`rowData` is destructured but never used). */
  datatype Props<E> = Props(
    className: string,
    columns: E,
    style: Style,
    collapsedHeight: int,
    expandedHeight: int,
    drawerContent: E,
    expanded: bool)

  /** The entries written over the caller's style on the outer container. */
  const ForcedStyle: Style :=
    map["display" := Str("block"), "borderBottom" := Str("solid 1px black"), "paddingTop" := Px(10)]

  /** Object spread `{ ...style, display, borderBottom, paddingTop }`: later keys win. */
  function OuterStyle(style: Style): (r: Style)
    ensures r.Keys == style.Keys + ForcedStyle.Keys
    ensures forall k :: k in style && k !in ForcedStyle ==> r[k] == style[k]
    ensures forall k :: k in ForcedStyle ==> r[k] == ForcedStyle[k]
    ensures r["display"] == Str("block") && r["paddingTop"] == Px(10)
  {
    style + ForcedStyle
  }

  function Render<E>(p: Props<E>): (r: RowElement<E>)
    ensures r.className == p.className
    ensures r.style == OuterStyle(p.style)
    ensures r.head.height == p.collapsedHeight && r.head.children == Node(p.columns)
    ensures r.drawer.height == p.expandedHeight - p.collapsedHeight
    ensures r.head.height + r.drawer.height == p.expandedHeight
    ensures r.drawer.children.Node? <==> p.expanded
    ensures r.drawer.children.Node? ==> r.drawer.children.e == p.drawerContent
  {
    RowElement(
      p.className,
      OuterStyle(p.style),
      SubRow(p.collapsedHeight, Node(p.columns)),
      SubRow(p.expandedHeight - p.collapsedHeight, if p.expanded then Node(p.drawerContent) else EmptyString))
  }

  /** The expanded flag decides only what the drawer sub-row holds: the
      container, the head and both heights are the same either way. */
  lemma ExpandedOnlyChangesDrawerChildren<E>(p: Props<E>)
    ensures Render(p.(expanded := true)).drawer.children == Node(p.drawerContent)
    ensures Render(p.(expanded := false)).drawer.children == EmptyString
    ensures Render(p.(expanded := true)) == Render(p.(expanded := false)).(drawer := SubRow(p.expandedHeight - p.collapsedHeight, Node(p.drawerContent)))
  {
  }
}
