# Block picker and bridge enums of the mobile block editor

This project is a Dafny model of two small pieces of the mobile editor:

- **The block picker** (`src/block-management/block-picker.js`). This is the inserter grid shown in a bottom sheet. The model covers:
  - the list of available block types: the registry with the unregistered-type handler removed;
  - the column count, `Math.floor` of the container width over the tile width;
  - the icon drawn on a tile, chosen by the shape of `icon.src`;
  - what each tile exposes: its list key, the value a press hands to `onValueSelected`, its accessibility label and role;
  - the grid key `InserterUI-${numberOfColumns}`, which forces a re-mount when the column count changes.
- **The enums of the Android bridge** (`GutenbergBridgeJS2Parent.java`):
  - `LogLevel`, with its partial decoder `valueOf(int)`;
  - `MediaType`, with its total decoder `getEnum(String)`, which falls back to `OTHER`.

Modules:

| file | module | contents |
|---|---|---|
| `wrappers.dfy` | `Wrappers` | `Option`: `None` is JavaScript's `undefined` / Java's `null` |
| `js_number.dfy` | `JsNumber` | integer-valued JavaScript numbers: `Math.floor(a / b)` including division by zero, and the text of `${n}` with a parser that reads it back |
| `i18n.dfy` | `I18n` | `sprintf` with one string argument |
| `block_picker.dfy` | `BlockPicker` | registry filter, layout, icon dispatch, tiles and grid |
| `gutenberg_bridge.dfy` | `GutenbergBridge` | `LogLevel` and `MediaType` with their decoders |

Inputs that the program reads from its environment are parameters in the model:
- `getBlockTypes()` is a `seq<BlockType>`.
- `getUnregisteredTypeHandlerName()` is an `Option<string>`.
- `BottomSheet.getWidth()` and the stylesheet widths and paddings are a `LayoutMetrics` value. All widths are integers.
- The icon fill, the icon width and the translation function `__` are an `Environment` value.

Two facts about the code that the model keeps:
- The column count is not clamped at zero. It is negative when the paddings exceed the sheet width (`BlockPicker.ColumnsSign`).
- The registry is filtered once, when the component is constructed (`BlockPicker.NewPicker`).

## Model

| member | source | states |
|---|---|---|
| `BlockPicker.AvailableBlockTypes` | src/block-management/block-picker.js:35 | the result holds no entry named as the unregistered-type handler; every other registry entry is kept; it is an order-preserving subsequence of the registry; its length is the registry length minus the number of handler entries |
| `BlockPicker.NewPicker` | src/block-management/block-picker.js:34-35 | constructing the picker stores the filtered registry once: only and all registry entries not named as the handler, as an order-preserving subsequence of the registry whose length is the registry length minus the handler entries, which `BlockPicker.AvailableBlockTypesUnique` shows determines the list |
| `BlockPicker.AvailableBlockTypesUnique` | src/block-management/block-picker.js:35 | any order-preserving subsequence of the registry that holds only kept entries, and as many as the registry keeps, equals the filtered list, so the contract above fully determines the filter |
| `BlockPicker.AvailableBlockTypesIdempotent` | src/block-management/block-picker.js:35 | filtering an already filtered list changes nothing |
| `BlockPicker.AvailableBlockTypesAppend` | src/block-management/block-picker.js:35 | filtering a concatenation of registries equals concatenating the filtered parts |
| `BlockPicker.AvailableBlockTypesUniqueNames` | src/block-management/block-picker.js:35 | if registry names are unique, the names of the filtered list are unique too |
| `JsNumber.FloorOfQuotient` | src/block-management/block-picker.js:113 | `Math.floor(a / b)`: for a non-zero divisor, the result is the largest integer not above the exact quotient (both divisor signs); for a zero divisor it is Infinity, -Infinity or NaN according to the sign of `a` |
| `BlockPicker.NumberOfColumns` | src/block-management/block-picker.js:106-114 | for a positive tile width, `columns * tileWidth <= containerWidth < (columns + 1) * tileWidth` |
| `BlockPicker.LayoutMetrics.ItemTotalWidth` | src/block-management/block-picker.js:111 | the width of one tile, its item paddings included; its meaning is stated by `BlockPicker.NumberOfColumns` |
| `BlockPicker.LayoutMetrics.ContainerTotalWidth` | src/block-management/block-picker.js:112 | the sheet width minus both container paddings; its meaning is stated by `BlockPicker.NumberOfColumns` |
| `BlockPicker.ColumnsAreMaximal` | src/block-management/block-picker.js:111-113 | no count of tiles larger than the column count fits in the container width |
| `BlockPicker.ColumnsMonotoneInSheetWidth` | src/block-management/block-picker.js:106-113 | for a fixed positive tile width, a wider sheet never gives fewer columns |
| `BlockPicker.ColumnsSign` | src/block-management/block-picker.js:111-113 | the count is 0 when the container width is at least 0 and narrower than one tile; it is negative exactly when the paddings exceed the sheet (the code does not clamp it); it is at least 1 once one tile fits |
| `BlockPicker.IconWithUpdatedFillColor` | src/block-management/block-picker.js:87-104 | nothing is drawn exactly when the source is neither a string, nor an SVG element, nor a function; everything drawn carries the given fill colour; a Dashicon draws the string name at the icon width; an SVG keeps the source's viewBox, xmlns and children; a component class is instantiated and a plain function is called, each with `{fill, size}` |
| `BlockPicker.IconDispatchPriority` | src/block-management/block-picker.js:88-103 | the checks run in order: a string always becomes a Dashicon; an SVG element becomes an SVG even if it is also callable; only a callable that is not an SVG element is instantiated or called |
| `I18n.FirstPlaceholder` | src/block-management/block-picker.js:41-44 | finds the first `%s` of a format, or reports that there is none |
| `I18n.Sprintf` | src/block-management/block-picker.js:41-44 | the first `%s` of the format is replaced by the argument, with the text around it unchanged; a format without `%s` comes back unchanged |
| `I18n.SprintfDeterminesArgument` | src/block-management/block-picker.js:40-45 | when the format's only `%` is the one that starts its `%s`, two formatted strings are equal exactly when their arguments are equal |
| `BlockPicker.ButtonLabelFormat` | src/block-management/block-picker.js:40-45 | untranslated, the label of a tile titled T is "T block"; for any translation whose only `%` starts its `%s`, different titles give different labels |
| `BlockPicker.ButtonLabel` | src/block-management/block-picker.js:40-45 | `buttonLabel(title)`: the translated "%s block" format applied to the title; untranslated it reads "<title> block" (see `BlockPicker.ButtonLabelFormat` for distinct titles) |
| `BlockPicker.RenderTile` | src/block-management/block-picker.js:63-71 | a tile's list key and the value its press hands to `onValueSelected` are both the item's name; its accessibility role is "button"; untranslated, its accessibility label is "<title> block"; its icon, when drawn, has the theme's fill colour |
| `BlockPicker.Render` | src/block-management/block-picker.js:54-71 | the grid has one tile per available block type, in order; tile `i` has the key and selection value of block `i` |
| `BlockPicker.RenderedTilesExcludeHandler` | src/block-management/block-picker.js:35-71 | no tile of a rendered picker has the handler's name, and every tile's role is "button" |
| `BlockPicker.RenderedTilesCoverRegistry` | src/block-management/block-picker.js:35-71 | every registry entry other than the handler has a tile whose press selects its name |
| `BlockPicker.RenderedTilesSelectDistinctNames` | src/block-management/block-picker.js:35-71 | with unique registry names, pressing tile `i` selects a name that no other tile selects, and no two tiles share a list key |
| `BlockPicker.GridKey` | src/block-management/block-picker.js:56 | the key starts with "InserterUI-" and the rest reads back as the column count (see `BlockPicker.GridKeyInjective`) |
| `JsNumber.ToText` | src/block-management/block-picker.js:56 | the text of `${numberOfColumns}`: non-empty, and it parses back to the number (see `JsNumber.ParseToText`, `JsNumber.ToTextInjective`) |
| `BlockPicker.GridKeyInjective` | src/block-management/block-picker.js:56 | two column counts give the same `InserterUI-` key exactly when they are equal |
| `BlockPicker.GridRemountsOnColumnChange` | src/block-management/block-picker.js:38-56 | re-rendering with new metrics keeps the grid key exactly when the column count is unchanged |
| `BlockPicker.GridRemountsFromThreeToFourColumns` | src/block-management/block-picker.js:56 | a worked example: widening the sheet from 256 to 336 points, with 80-point tiles, moves from 3 to 4 columns and changes the key from "InserterUI-3" to "InserterUI-4" |
| `JsNumber.ParseToText` | src/block-management/block-picker.js:56 | the template-literal text of an integral number parses back to that number |
| `JsNumber.ToTextInjective` | src/block-management/block-picker.js:56 | two integral numbers have the same text exactly when they are equal |
| `JsNumber.DigitsValueOfNatToText` | src/block-management/block-picker.js:56 | the decimal digits printed for a natural number read back as that number |
| `GutenbergBridge.FirstMatch` | react-native-gutenberg-bridge/android/src/main/java/org/wordpress/mobile/ReactNativeGutenbergBridge/GutenbergBridgeJS2Parent.java:45-52 | the search over `values()`: a result is the first listed constant, in declaration order, that matches; there is no result exactly when no listed constant matches |
| `GutenbergBridge.LogLevelIdsIncreasing` | react-native-gutenberg-bridge/android/src/main/java/org/wordpress/mobile/ReactNativeGutenbergBridge/GutenbergBridgeJS2Parent.java:33-37 | `values()` lists every level; the ids grow strictly in declaration order from TRACE=0 to ERROR=3 |
| `GutenbergBridge.LogLevelValueOf` | react-native-gutenberg-bridge/android/src/main/java/org/wordpress/mobile/ReactNativeGutenbergBridge/GutenbergBridgeJS2Parent.java:45-52 | a result has the requested id; the result is `null` exactly when the id is outside 0..3 |
| `GutenbergBridge.LogLevelRoundTrip` | react-native-gutenberg-bridge/android/src/main/java/org/wordpress/mobile/ReactNativeGutenbergBridge/GutenbergBridgeJS2Parent.java:45-52 | `valueOf(L.id) == L` for every level L |
| `GutenbergBridge.LogLevelValueOfInverse` | react-native-gutenberg-bridge/android/src/main/java/org/wordpress/mobile/ReactNativeGutenbergBridge/GutenbergBridgeJS2Parent.java:45-52 | `valueOf(id)` yields L exactly when `id` is L's id |
| `GutenbergBridge.MediaTypeOf` | react-native-gutenberg-bridge/android/src/main/java/org/wordpress/mobile/ReactNativeGutenbergBridge/GutenbergBridgeJS2Parent.java:68-76 | a declared name decodes to the type with that name; `null` and any other string decode to OTHER, so the result is never `null` |
| `GutenbergBridge.MediaTypeNamesDistinct` | react-native-gutenberg-bridge/android/src/main/java/org/wordpress/mobile/ReactNativeGutenbergBridge/GutenbergBridgeJS2Parent.java:56-60 | the five names "image", "video", "media", "audio" and "other" are pairwise distinct |
| `GutenbergBridge.MediaTypeRoundTrip` | react-native-gutenberg-bridge/android/src/main/java/org/wordpress/mobile/ReactNativeGutenbergBridge/GutenbergBridgeJS2Parent.java:56-76 | `getEnum(T.name) == T` for every media type T |
| `GutenbergBridge.MediaTypeOfInverse` | react-native-gutenberg-bridge/android/src/main/java/org/wordpress/mobile/ReactNativeGutenbergBridge/GutenbergBridgeJS2Parent.java:68-76 | a type other than OTHER is decoded from exactly its own name; OTHER is decoded exactly from `null`, "other", and strings that are not a declared name |
| `GutenbergBridge.MediaTypeOfFallbacks` | react-native-gutenberg-bridge/android/src/main/java/org/wordpress/mobile/ReactNativeGutenbergBridge/GutenbergBridgeJS2Parent.java:70-75 | matching is case-sensitive ("Image" gives OTHER); `null`, an unknown name and "other" all give OTHER, so `getEnum` is not injective |

## Left out

- React and React Native rendering is not modelled: `BottomSheet`, `FlatList` layout and scrolling, where the row separators go, `TouchableHighlight` styling, `isVisible`, and the content style that `addExtraBottomPadding` toggles. A rendered grid is a plain value instead. Dismissal only forwards `onDismiss` to the sheet, so there is nothing to model there.
- `BottomSheet.getWidth()` and the stylesheet values are parameters. The stylesheet file is not part of this model.
- Widths are whole numbers, and the divisions are exact. JavaScript floating-point rounding of fractional widths and of magnitudes above 2^53 is not modelled.
- `JsNumber.ToText` prints every digit. JavaScript switches to exponent notation at 10^21, which is far outside any plausible column count.
- The translation function `__` is a parameter with no behaviour of its own.
- `I18n.Sprintf` models only the first `%s` conversion, which is the only one the picker's format uses. The model copies every other character of the format unchanged. The i18n library's `sprintf` treats later conversions, `%%`, positional arguments and its other directives differently. For example, it turns `%%s block` into `%s block` for every title, while the model substitutes the title after the first `%`.
- `BlockPicker.ButtonLabelFormat` and `I18n.SprintfDeterminesArgument` promise distinct labels only for a translated format whose only `%` starts its `%s` (`I18n.SinglePlaceholder`). For any other translation, the model's `sprintf` differs from the library's, so the model makes no promise about those labels.
- The check `icon.src.prototype instanceof Component` is not modelled by prototype inspection. Each callable icon source instead carries a declared tag: a component class or a plain function.
- `BlockPicker.IconWithUpdatedFillColor`: the model does not say what a plain icon function returns. `Called(f, props)` stands for the result of calling `f` with `props`.
- A value whose `type` is 'svg' always carries props, as a React element does. A non-element object that has that `type` but no `props` would throw a TypeError in the code; that case is not modelled.
- The bridge interface methods are not modelled: media picking, upload callbacks with float progress, `responseHtml`, `editorDidMount`, logging and autosave. They are declarations with no bodies.
- `MediaType.name` is declared as a non-final field. The model treats each constant's name as fixed, so reassigning the field at run time is not modelled.
