/**
 The block picker of the mobile editor's inserter: the registry of block types
 with the unregistered-type handler removed, the number of grid columns that
 fit the bottom sheet, the icon drawn on each tile, and the facts each tile
 and the grid expose (keys, selection value, accessibility label and role).
 React rendering itself is not modelled; a rendered grid is a plain value.
 */
module BlockPicker {
  import opened Wrappers
  import JsNumber
  import I18n

  // ------------------------------------------------------------------ icons

  /** Identity of a JavaScript function or component class. */
  type Ref = nat

  /** Markup carried as the children of an inline SVG element. */
  datatype Node = Element(tag: string, attributes: seq<(string, string)>, children: seq<Node>) | Text(text: string)

  /** What `icon.src.type` holds: the string 'svg', the `SVG` primitive of the
      components package, or anything else (including `undefined`). */
  datatype ElementType = SvgTag | SvgPrimitive | OtherType

  /** Whether `icon.src` is a function, and if so whether it is a subclass of
      `Component` (declared here instead of found by prototype inspection). */
  datatype Callability = NotCallable | ComponentClass(component: Ref) | PlainFunction(callee: Ref)

  /** The props read off an SVG element; an absent prop is `None`. */
  datatype SvgProps = SvgProps(viewBox: Option<string>, xmlns: Option<string>, children: seq<Node>)

  /** The shapes `icon.src` can take: a string (a Dashicon name), a falsy
      non-string value (`undefined`, `null`, `false`, `0`), or any truthy
      non-string value, described by its `type`, its `props` and whether it
      can be called. */
  datatype IconSrc =
    | Glyph(name: string)
    | Falsy
    | Value(elementType: ElementType, props: SvgProps, callability: Callability)

  datatype Icon = Icon(src: IconSrc)

  /** The `{ fill, size }` props a factory icon receives. */
  datatype IconProps = IconProps(fill: string, size: int)

  /** What the tile shows as its icon. `Called` stands for whatever the icon
      function returns when called with `props`. */
  datatype RenderedIcon =
    | Dashicon(icon: string, fill: string, size: int)
    | Svg(viewBox: Option<string>, xmlns: Option<string>, fill: string, children: seq<Node>)
    | Created(component: Ref, props: IconProps)
    | Called(callee: Ref, props: IconProps)
    | NoIcon

  /** The fill a rendered icon is drawn with, if it is drawn. */
  function FillOf(r: RenderedIcon): Option<string> {
    match r
    case Dashicon(_, fill, _) => Some(fill)
    case Svg(_, _, fill, _) => Some(fill)
    case Created(_, props) => Some(props.fill)
    case Called(_, props) => Some(props.fill)
    case NoIcon => None
  }

  /** `icon.src` is an SVG element: truthy, not a string, typed 'svg' or `SVG`. */
  predicate IsSvgElement(src: IconSrc) {
    src.Value? && src.elementType != OtherType
  }

  /** `icon.src` is a function (a plain one or a component class). */
  predicate IsCallable(src: IconSrc) {
    src.Value? && !src.callability.NotCallable?
  }

  /** `iconWithUpdatedFillColor(color, icon)`, with `size` standing for the
      icon width of the stylesheet. The checks run in order: string, SVG
      element, function; any other source draws nothing. */
  function IconWithUpdatedFillColor(color: string, size: int, icon: Icon): (r: RenderedIcon)
    ensures r.NoIcon? <==> !icon.src.Glyph? && !IsSvgElement(icon.src) && !IsCallable(icon.src)
    ensures !r.NoIcon? ==> FillOf(r) == Some(color)
    ensures r.Dashicon? ==> icon.src == Glyph(r.icon) && r.size == size
    ensures r.Svg? ==> IsSvgElement(icon.src) && icon.src.props == SvgProps(r.viewBox, r.xmlns, r.children)
    ensures r.Created? ==> icon.src.Value? && icon.src.callability == ComponentClass(r.component) && r.props.size == size
    ensures r.Called? ==> icon.src.Value? && icon.src.callability == PlainFunction(r.callee) && r.props.size == size
  {
    match icon.src
    case Glyph(name) => Dashicon(name, color, size)
    case Falsy => NoIcon
    case Value(elementType, props, callability) =>
      if elementType == SvgTag || elementType == SvgPrimitive then
        Svg(props.viewBox, props.xmlns, color, props.children)
      else
        match callability
        case ComponentClass(component) => Created(component, IconProps(color, size))
        case PlainFunction(callee) => Called(callee, IconProps(color, size))
        case NotCallable => NoIcon
  }

  /** The dispatch order matters where shapes overlap: an SVG element wins
      over a callable source, so a callable `svg`-typed value is re-wrapped
      and never called or instantiated; a string never calls anything. */
  lemma IconDispatchPriority(color: string, size: int, icon: Icon)
    ensures icon.src.Glyph? ==> IconWithUpdatedFillColor(color, size, icon) == Dashicon(icon.src.name, color, size)
    ensures IsSvgElement(icon.src) ==>
      IconWithUpdatedFillColor(color, size, icon) == Svg(icon.src.props.viewBox, icon.src.props.xmlns, color, icon.src.props.children)
    ensures IsCallable(icon.src) && !IsSvgElement(icon.src) ==>
      var r := IconWithUpdatedFillColor(color, size, icon);
      (r.Created? || r.Called?) && r.props == IconProps(color, size)
  {
  }

  // --------------------------------------------------------- block registry

  /** A registered block type as the picker reads it. */
  datatype BlockType = BlockType(name: string, title: string, icon: Icon)

  /** The filter's test `name !== getUnregisteredTypeHandlerName()`; when no
      handler is registered (`None`, JavaScript's `undefined`) every block
      passes. */
  predicate Kept(block: BlockType, unregisteredName: Option<string>) {
    unregisteredName != Some(block.name)
  }

  /** How many entries of `registry` are named as the unregistered-type handler. */
  function HandlerCount(registry: seq<BlockType>, unregisteredName: Option<string>): (n: nat)
    ensures n <= |registry|
    decreases |registry|
  {
    if |registry| == 0 then 0
    else (if Kept(registry[0], unregisteredName) then 0 else 1) + HandlerCount(registry[1..], unregisteredName)
  }

  /** `a` can be obtained from `b` by deleting entries. */
  ghost predicate IsSubsequence<T>(a: seq<T>, b: seq<T>)
    decreases |b|
  {
    if |a| == 0 then true
    else if |b| == 0 then false
    else if a[0] == b[0] then IsSubsequence(a[1..], b[1..])
    else IsSubsequence(a, b[1..])
  }

  /** `availableBlockTypes`: the registry without the unregistered-type
      handler, in registry order. */
  function AvailableBlockTypes(registry: seq<BlockType>, unregisteredName: Option<string>): (r: seq<BlockType>)
    ensures forall b :: b in r ==> b in registry && Kept(b, unregisteredName)
    ensures forall b :: b in registry && Kept(b, unregisteredName) ==> b in r
    ensures IsSubsequence(r, registry)
    ensures |r| == |registry| - HandlerCount(registry, unregisteredName)
    decreases |registry|
  {
    if |registry| == 0 then []
    else if Kept(registry[0], unregisteredName) then [registry[0]] + AvailableBlockTypes(registry[1..], unregisteredName)
    else AvailableBlockTypes(registry[1..], unregisteredName)
  }

  /** A subsequence made only of kept entries has at most as many entries as
      the registry keeps. */
  lemma {:induction false} KeptSubsequenceBound(s: seq<BlockType>, registry: seq<BlockType>, unregisteredName: Option<string>)
    requires IsSubsequence(s, registry)
    requires forall b :: b in s ==> Kept(b, unregisteredName)
    ensures |s| <= |registry| - HandlerCount(registry, unregisteredName)
    decreases |registry|
  {
    if |s| > 0 {
      assert s[0] in s;
      if s[0] == registry[0] {
        assert forall b :: b in s[1..] ==> b in s;
        KeptSubsequenceBound(s[1..], registry[1..], unregisteredName);
      } else {
        KeptSubsequenceBound(s, registry[1..], unregisteredName);
      }
    }
  }

  /** The contract of `AvailableBlockTypes` pins it down: an order-preserving
      subsequence of the registry, holding only kept entries and as many as
      the registry keeps, is the filtered list itself. */
  lemma {:induction false} AvailableBlockTypesUnique(s: seq<BlockType>, registry: seq<BlockType>, unregisteredName: Option<string>)
    requires IsSubsequence(s, registry)
    requires forall b :: b in s ==> Kept(b, unregisteredName)
    requires |s| == |registry| - HandlerCount(registry, unregisteredName)
    ensures s == AvailableBlockTypes(registry, unregisteredName)
    decreases |registry|
  {
    if |registry| > 0 {
      var rest := registry[1..];
      if Kept(registry[0], unregisteredName) {
        if s[0] == registry[0] {
          assert forall b :: b in s[1..] ==> b in s;
          AvailableBlockTypesUnique(s[1..], rest, unregisteredName);
          assert s == [s[0]] + s[1..];
        } else {
          KeptSubsequenceBound(s, rest, unregisteredName);
          assert false;
        }
      } else {
        if |s| > 0 {
          assert s[0] in s;
        }
        AvailableBlockTypesUnique(s, rest, unregisteredName);
      }
    }
  }

  /** Filtering twice is filtering once. */
  lemma {:induction false} AvailableBlockTypesIdempotent(registry: seq<BlockType>, unregisteredName: Option<string>)
    ensures AvailableBlockTypes(AvailableBlockTypes(registry, unregisteredName), unregisteredName)
         == AvailableBlockTypes(registry, unregisteredName)
  {
    var once := AvailableBlockTypes(registry, unregisteredName);
    var twice := AvailableBlockTypes(once, unregisteredName);
    assert HandlerCount(once, unregisteredName) == 0 by {
      HandlerCountZero(once, unregisteredName);
    }
    SubsequenceTransitive(twice, once, registry);
    AvailableBlockTypesUnique(twice, registry, unregisteredName);
  }

  /** A list with no handler entry has handler count zero. */
  lemma {:induction false} HandlerCountZero(registry: seq<BlockType>, unregisteredName: Option<string>)
    requires forall b :: b in registry ==> Kept(b, unregisteredName)
    ensures HandlerCount(registry, unregisteredName) == 0
    decreases |registry|
  {
    if |registry| > 0 {
      assert registry[0] in registry;
      assert forall b :: b in registry[1..] ==> b in registry;
      HandlerCountZero(registry[1..], unregisteredName);
    }
  }

  lemma {:induction false} SubsequenceTransitive<T>(a: seq<T>, b: seq<T>, c: seq<T>)
    requires IsSubsequence(a, b) && IsSubsequence(b, c)
    ensures IsSubsequence(a, c)
    decreases |c|
  {
    if |a| > 0 {
      if a[0] == b[0] {
        if b[0] == c[0] {
          SubsequenceTransitive(a[1..], b[1..], c[1..]);
        } else {
          SubsequenceTransitive(a, b, c[1..]);
        }
      } else {
        if b[0] == c[0] {
          SubsequenceTransitive(a, b[1..], c[1..]);
          SubsequenceDropHead(a, c);
        } else {
          SubsequenceTransitive(a, b, c[1..]);
          SubsequenceDropHead(a, c);
        }
      }
    }
  }

  /** A subsequence of the tail is a subsequence of the whole. */
  lemma {:induction false} SubsequenceDropHead<T>(a: seq<T>, c: seq<T>)
    requires |c| > 0 && IsSubsequence(a, c[1..])
    ensures IsSubsequence(a, c)
    decreases |c|, 0
  {
    if |a| > 0 && a[0] == c[0] {
      SubsequenceTail(a, c[1..]);
    }
  }

  /** Dropping the first entry of a subsequence keeps it a subsequence. */
  lemma {:induction false} SubsequenceTail<T>(a: seq<T>, c: seq<T>)
    requires |a| > 0 && IsSubsequence(a, c)
    ensures IsSubsequence(a[1..], c)
    decreases |c|, 1
  {
    if a[0] == c[0] {
      SubsequenceDropHead(a[1..], c);
    } else {
      SubsequenceTail(a, c[1..]);
      SubsequenceDropHead(a[1..], c);
    }
  }

  /** Filtering a concatenation of registries is concatenating the filtered
      parts. */
  lemma {:induction false} AvailableBlockTypesAppend(a: seq<BlockType>, b: seq<BlockType>, unregisteredName: Option<string>)
    ensures AvailableBlockTypes(a + b, unregisteredName)
         == AvailableBlockTypes(a, unregisteredName) + AvailableBlockTypes(b, unregisteredName)
    decreases |a|
  {
    if |a| > 0 {
      assert (a + b)[1..] == a[1..] + b;
      AvailableBlockTypesAppend(a[1..], b, unregisteredName);
    } else {
      assert a + b == b;
    }
  }

  /** No two entries share a name. */
  predicate UniqueNames(blocks: seq<BlockType>) {
    forall i, j :: 0 <= i < j < |blocks| ==> blocks[i].name != blocks[j].name
  }

  /** Filtering keeps names unique, so the grid's item keys are unique
      whenever the registry's names are. */
  lemma {:induction false} AvailableBlockTypesUniqueNames(registry: seq<BlockType>, unregisteredName: Option<string>)
    requires UniqueNames(registry)
    ensures UniqueNames(AvailableBlockTypes(registry, unregisteredName))
    decreases |registry|
  {
    if |registry| > 0 {
      var rest := registry[1..];
      AvailableBlockTypesUniqueNames(rest, unregisteredName);
      var tail := AvailableBlockTypes(rest, unregisteredName);
      if Kept(registry[0], unregisteredName) {
        var r := [registry[0]] + tail;
        forall i, j | 0 <= i < j < |r| ensures r[i].name != r[j].name {
          if i == 0 {
            assert r[j] in rest;
            var k :| 0 <= k < |rest| && rest[k] == r[j];
            assert registry[k + 1] == r[j];
          } else {
            assert r[i] == tail[i - 1] && r[j] == tail[j - 1];
          }
        }
      }
    }
  }

  // ----------------------------------------------------------------- layout

  /** The widths `calculateNumberOfColumns` reads: the bottom sheet's width
      and the stylesheet's item width and paddings, all in whole points. */
  datatype LayoutMetrics = LayoutMetrics(
    sheetWidth: int,
    containerPaddingLeft: int,
    containerPaddingRight: int,
    itemWidth: int,
    itemPaddingLeft: int,
    itemPaddingRight: int)
  {
    /** The width one tile takes, its paddings included. */
    function ItemTotalWidth(): int {
      itemWidth + itemPaddingLeft + itemPaddingRight
    }

    /** The width left for tiles inside the sheet's paddings. */
    function ContainerTotalWidth(): int {
      sheetWidth - (containerPaddingLeft + containerPaddingRight)
    }
  }

  /** `calculateNumberOfColumns()`: `Math.floor` of the container width over
      the tile width. For a positive tile width this is the largest count of
      tiles whose widths fit in the container; it is not clamped at zero. */
  function NumberOfColumns(m: LayoutMetrics): (r: JsNumber.IntegralNumber)
    ensures m.ItemTotalWidth() > 0 ==>
      r.Finite? && r.value * m.ItemTotalWidth() <= m.ContainerTotalWidth() < (r.value + 1) * m.ItemTotalWidth()
  {
    JsNumber.FloorOfQuotient(m.ContainerTotalWidth(), m.ItemTotalWidth())
  }

  /** `x * f` grows with `x` for positive `f`. */
  lemma MultiplyMonotone(x: int, y: int, f: int)
    requires f > 0 && x <= y
    ensures x * f <= y * f
  {
    assert y * f - x * f == (y - x) * f;
  }

  /** No count larger than the column count fits, so the column count is the
      largest count of tiles the container holds. */
  lemma ColumnsAreMaximal(m: LayoutMetrics, n: int)
    requires m.ItemTotalWidth() > 0
    requires n * m.ItemTotalWidth() <= m.ContainerTotalWidth()
    ensures n <= NumberOfColumns(m).value
  {
    var q, f := NumberOfColumns(m).value, m.ItemTotalWidth();
    if n > q {
      MultiplyMonotone(q + 1, n, f);
    }
  }

  /** Widening the sheet never removes a column. */
  lemma ColumnsMonotoneInSheetWidth(m: LayoutMetrics, wider: int)
    requires m.ItemTotalWidth() > 0 && m.sheetWidth <= wider
    ensures NumberOfColumns(m).value <= NumberOfColumns(m.(sheetWidth := wider)).value
  {
    var m' := m.(sheetWidth := wider);
    ColumnsAreMaximal(m', NumberOfColumns(m).value);
  }

  /** The count's sign follows the container width: zero columns while the
      container is narrower than one tile, and a negative count once the
      paddings exceed the sheet. */
  lemma ColumnsSign(m: LayoutMetrics)
    requires m.ItemTotalWidth() > 0
    ensures 0 <= m.ContainerTotalWidth() < m.ItemTotalWidth() ==> NumberOfColumns(m) == JsNumber.Finite(0)
    ensures m.ContainerTotalWidth() < 0 <==> NumberOfColumns(m).value < 0
    ensures m.ContainerTotalWidth() >= m.ItemTotalWidth() ==> NumberOfColumns(m).value >= 1
  {
    var q, f, w := NumberOfColumns(m).value, m.ItemTotalWidth(), m.ContainerTotalWidth();
    if q >= 1 {
      MultiplyMonotone(1, q, f);
    }
    if 0 <= w {
      ColumnsAreMaximal(m, 0);
    }
    if w >= f {
      ColumnsAreMaximal(m, 1);
    }
  }

  // ------------------------------------------------------------ tiles, grid

  /** The stylesheet's icon fill and width, and the translation function `__`. */
  datatype Environment = Environment(iconFill: string, iconWidth: int, translate: string -> string)

  /** The facts one tile exposes: its list key, accessibility label and role,
      the value its press hands to `onValueSelected`, its icon and caption. */
  datatype Tile = Tile(
    key: string,
    accessibilityLabel: string,
    accessibilityRole: string,
    selectedValue: string,
    icon: RenderedIcon,
    caption: string)

  /** `buttonLabel(title)`: the translated "%s block" format applied to the
      (already localised) title. */
  function ButtonLabel(translate: string -> string, title: string): (text: string)
    ensures translate("%s block") == "%s block" ==> text == title + " block"
  {
    assert I18n.PlaceholderAt("%s block", 0);
    I18n.Sprintf(translate("%s block"), title)
  }

  /** With no translation the label reads "<title> block"; with any
      translation whose only `%` starts a `%s`, tiles with different titles
      get different labels. */
  lemma ButtonLabelFormat(translate: string -> string, title: string, other: string)
    ensures translate("%s block") == "%s block" ==> ButtonLabel(translate, title) == title + " block"
    ensures I18n.SinglePlaceholder(translate("%s block")) ==>
      (ButtonLabel(translate, title) == ButtonLabel(translate, other) <==> title == other)
  {
    if translate("%s block") == "%s block" {
      assert I18n.PlaceholderAt("%s block", 0);
    }
    if I18n.SinglePlaceholder(translate("%s block")) {
      I18n.SprintfDeterminesArgument(translate("%s block"), title, other);
    }
  }

  /** `renderItem` for one block type. */
  function RenderTile(item: BlockType, env: Environment): (t: Tile)
    ensures t.key == t.selectedValue == item.name
    ensures t.accessibilityRole == "button"
    ensures env.translate("%s block") == "%s block" ==> t.accessibilityLabel == item.title + " block"
    ensures !t.icon.NoIcon? ==> FillOf(t.icon) == Some(env.iconFill)
  {
    Tile(
      key := item.name,
      accessibilityLabel := ButtonLabel(env.translate, item.title),
      accessibilityRole := "button",
      selectedValue := item.name,
      icon := IconWithUpdatedFillColor(env.iconFill, env.iconWidth, item.icon),
      caption := item.title)
  }

  /** The picker keeps the list it filtered when it was constructed. */
  datatype Picker = Picker(availableBlockTypes: seq<BlockType>)

  /** Constructing the picker filters the registry once. */
  function NewPicker(registry: seq<BlockType>, unregisteredName: Option<string>): (p: Picker)
    ensures forall b :: b in p.availableBlockTypes ==> b in registry && Kept(b, unregisteredName)
    ensures forall b :: b in registry && Kept(b, unregisteredName) ==> b in p.availableBlockTypes
    ensures IsSubsequence(p.availableBlockTypes, registry)
    ensures |p.availableBlockTypes| == |registry| - HandlerCount(registry, unregisteredName)
  {
    Picker(AvailableBlockTypes(registry, unregisteredName))
  }

  /** The `FlatList` as a value: its key, its column count and its tiles. */
  datatype Grid = Grid(key: string, numColumns: JsNumber.IntegralNumber, tiles: seq<Tile>)

  /** The grid's key, `InserterUI-${numberOfColumns}`. */
  function GridKey(numColumns: JsNumber.IntegralNumber): (key: string)
    ensures |key| > |"InserterUI-"| && key[..|"InserterUI-"|] == "InserterUI-"
    ensures JsNumber.Parse(key[|"InserterUI-"|..]) == Some(numColumns)
  {
    var key := "InserterUI-" + JsNumber.ToText(numColumns);
    JsNumber.ParseToText(numColumns);
    assert key[|"InserterUI-"|..] == JsNumber.ToText(numColumns);
    key
  }

  /** Two column counts give the same grid key only when they are equal, so a
      change in the column count always re-mounts the grid. */
  lemma GridKeyInjective(a: JsNumber.IntegralNumber, b: JsNumber.IntegralNumber)
    ensures GridKey(a) == GridKey(b) <==> a == b
  {
    var prefix := "InserterUI-";
    if GridKey(a) == GridKey(b) {
      assert GridKey(a)[|prefix|..] == JsNumber.ToText(a);
      assert GridKey(b)[|prefix|..] == JsNumber.ToText(b);
      JsNumber.ToTextInjective(a, b);
    }
  }

  /** `render()`: one tile per available block type, in order, in a grid keyed
      by the column count. */
  function Render(picker: Picker, metrics: LayoutMetrics, env: Environment): (g: Grid)
    ensures |g.tiles| == |picker.availableBlockTypes|
    ensures forall i :: 0 <= i < |g.tiles| ==>
      g.tiles[i].key == g.tiles[i].selectedValue == picker.availableBlockTypes[i].name
  {
    var columns := NumberOfColumns(metrics);
    Grid(
      GridKey(columns),
      columns,
      seq(|picker.availableBlockTypes|, i requires 0 <= i < |picker.availableBlockTypes| =>
        RenderTile(picker.availableBlockTypes[i], env)))
  }

  /** Re-rendering with new metrics re-mounts the grid exactly when the column
      count changes. */
  lemma GridRemountsOnColumnChange(picker: Picker, m1: LayoutMetrics, m2: LayoutMetrics, env: Environment)
    ensures Render(picker, m1, env).key == Render(picker, m2, env).key <==> NumberOfColumns(m1) == NumberOfColumns(m2)
  {
    GridKeyInjective(NumberOfColumns(m1), NumberOfColumns(m2));
  }

  /** Going from three to four columns (a 256-point sheet rotated to 336,
      80-point tiles, 8-point sheet paddings) changes the grid key. */
  lemma GridRemountsFromThreeToFourColumns(picker: Picker, env: Environment)
    ensures var m := LayoutMetrics(256, 8, 8, 64, 8, 8);
      && NumberOfColumns(m) == JsNumber.Finite(3)
      && NumberOfColumns(m.(sheetWidth := 336)) == JsNumber.Finite(4)
      && Render(picker, m, env).key == "InserterUI-3"
      && Render(picker, m.(sheetWidth := 336), env).key == "InserterUI-4"
  {
  }

  /** A rendered picker never shows the unregistered-type handler, and every
      tile is announced as a button. */
  lemma RenderedTilesExcludeHandler(registry: seq<BlockType>, unregisteredName: Option<string>, metrics: LayoutMetrics, env: Environment)
    ensures forall t :: t in Render(NewPicker(registry, unregisteredName), metrics, env).tiles ==>
      Some(t.key) != unregisteredName && t.accessibilityRole == "button"
  {
    var available := AvailableBlockTypes(registry, unregisteredName);
    var g := Render(Picker(available), metrics, env);
    forall t | t in g.tiles ensures Some(t.key) != unregisteredName && t.accessibilityRole == "button" {
      var i :| 0 <= i < |g.tiles| && g.tiles[i] == t;
      assert available[i] in available;
    }
  }

  /** Every registered block other than the handler has a tile whose press
      selects it. */
  lemma RenderedTilesCoverRegistry(registry: seq<BlockType>, unregisteredName: Option<string>, metrics: LayoutMetrics, env: Environment)
    ensures forall b :: b in registry && Kept(b, unregisteredName) ==>
      exists t :: t in Render(NewPicker(registry, unregisteredName), metrics, env).tiles && t.selectedValue == b.name
  {
    var available := AvailableBlockTypes(registry, unregisteredName);
    var g := Render(Picker(available), metrics, env);
    forall b | b in registry && Kept(b, unregisteredName) ensures exists t :: t in g.tiles && t.selectedValue == b.name {
      var i :| 0 <= i < |available| && available[i] == b;
      assert g.tiles[i] in g.tiles;
    }
  }

  /** With unique registry names, pressing tile `i` selects a name that no
      other tile selects, and tile keys are unique. */
  lemma RenderedTilesSelectDistinctNames(registry: seq<BlockType>, unregisteredName: Option<string>, metrics: LayoutMetrics, env: Environment)
    requires UniqueNames(registry)
    ensures var g := Render(NewPicker(registry, unregisteredName), metrics, env);
      forall i, j :: 0 <= i < |g.tiles| && 0 <= j < |g.tiles| && i != j ==>
        g.tiles[i].selectedValue != g.tiles[j].selectedValue && g.tiles[i].key != g.tiles[j].key
  {
    var available := AvailableBlockTypes(registry, unregisteredName);
    var g := Render(Picker(available), metrics, env);
    AvailableBlockTypesUniqueNames(registry, unregisteredName);
    forall i, j | 0 <= i < |g.tiles| && 0 <= j < |g.tiles| && i != j
      ensures g.tiles[i].selectedValue != g.tiles[j].selectedValue && g.tiles[i].key != g.tiles[j].key
    {
      if i > j {
        assert available[j].name != available[i].name;
      }
    }
  }
}
