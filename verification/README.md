# HyUI core in Dafny

HyUI turns HTML-like markup into Hytale UI builders and keeps an interface's element
values in sync with the client. This project models four parts of it as pure Dafny
functions over immutable data and proves what they promise:

- **Style attribute parsing** (`StyleAttribute`). The inline `style` attribute is split
  into `key: value` declarations. Keys are trimmed and lower-cased, and the last
  declaration of a key wins. `capitalize` spells layout-mode names.
- **The style cascade** (`TagHandler`, `ButtonStyles`). Each style entry is applied to an
  element builder.
  - Plain elements get a `HyUIStyle`, an anchor, a flex weight, a visibility, a layout
    mode, and background or padding hooks.
  - Buttons sort their entries into Default, Hovered, Pressed and Disabled buckets. A
    generated `TextButtonStyle(...)` is hoisted before the button and used after it.
- **The button style generator** (`ButtonStyleGenerator`). It builds the
  `TextButtonStyle(...)` DSL literal from the four state maps.
- **Interfaces and HUDs** (`HyUInterface`, `HyUIHud`).
  - Building an interface emits its commands and captures each element's initial value.
  - A data event is routed through the element tree: it calls the matching listeners and
    caches values that change.
  - A HUD hides and shows its `HyUIRoot` element by rebuilding itself.

Support modules:

- `Wrappers`: `Option`, `Result` and map lookup.
- `Strings`: Java string operations on `seq<char>`.
- `Integers`: `Integer.parseInt` and the lenient `parseInt`.
- `Elements`: a `UIElementBuilder` as one datatype, and its pre-order.
- `Commands`: UI commands and the deferred edit hooks.

Inputs that Java hides are explicit parameters:

- **`order`** is the iteration order of a `HashMap`. Every property is proved for every
  order that enumerates the map. Where the outcome really depends on the order, the
  contract says which requests can win.
- **`emit`** is what `UIElementBuilder.build` emits for one element.
- **`parse`** is `parseValue` for an element.
- **`hashDigits`** is the digits of `Math.abs(selector.hashCode())`.

## Model

| member | source | states |
|---|---|---|
| Strings.SplitOn | src/main/java/au/ellie/hyui/html/TagHandler.java:62 | splitting on every separator, trailing empty pieces included, gives at least one part, no part holds the separator, and joining the parts with the separator gives back the input |
| Strings.JavaSplit | src/main/java/au/ellie/hyui/html/TagHandler.java:62 | `split(";")` is the input itself when it has no separator; otherwise it is the full split with its trailing empty pieces removed, so its last piece is non-empty, and no piece holds the separator |
| Strings.JavaSplitSeparatorOnly | src/main/java/au/ellie/hyui/html/TagHandler.java:62 | `";"` splits to no pieces at all, while `""` splits to one empty piece |
| Strings.SplitOnJoin | src/main/java/au/ellie/hyui/html/TagHandler.java:62 | splitting a join of separator-free parts gives back exactly those parts |
| Strings.Trim | src/main/java/au/ellie/hyui/html/TagHandler.java:66 | `trim()` is never longer than its input, has no blank at either end, and is empty exactly when the input is all blanks |
| Strings.TrimIdempotent | src/main/java/au/ellie/hyui/html/TagHandler.java:66 | trimming twice is the same as trimming once |
| Strings.ToLower | src/main/java/au/ellie/hyui/html/TagHandler.java:66 | `toLowerCase()` keeps the length and lower-cases every character in place |
| Strings.SplitTrimmedWhitespace | src/main/java/au/ellie/hyui/html/TagHandler.java:214 | `value.trim().split("\\s+")` yields at least one part, and yields the single empty part exactly when the value is blank |
| Strings.TokensJoin | src/main/java/au/ellie/hyui/html/TagHandler.java:214 | splitting space-joined tokens on whitespace gives back the tokens |
| Strings.Keep | src/main/java/au/ellie/hyui/html/ButtonStyleGenerator.java:100 | the filtered string keeps exactly the input's characters that pass the filter, in order, and no others |
| Strings.LastIndexOf | src/main/java/au/ellie/hyui/html/TagHandler.java:324 | `lastIndexOf` is -1 exactly when the character is absent, and otherwise points at its last occurrence |
| Integers.ParseInt | src/main/java/au/ellie/hyui/html/TagHandler.java:50 | `Integer.parseInt` succeeds exactly when the text is an optional '-' or '+' followed by at least one digit and the signed value fits in 32 bits, and then returns that signed value |
| Integers.ParseIntAccepts | src/main/java/au/ellie/hyui/html/TagHandler.java:50 | `+7` and `007` read as 7, and `-0` as 0 |
| Integers.ParseIntRejects | src/main/java/au/ellie/hyui/html/TagHandler.java:50 | empty text, a bare `-`, `+-1` and `2147483648` are rejected |
| Integers.ParseIntToString | src/main/java/au/ellie/hyui/html/TagHandler.java:164-205 | every 32-bit integer printed in decimal parses back to itself |
| Integers.DigitsRoundTrip | src/main/java/au/ellie/hyui/html/TagHandler.java:164-205 | decimal digits of a natural number read back as that number |
| Integers.LenientParseInt | src/main/java/au/ellie/hyui/html/TagHandler.java:336-342 | the lenient parse stays in 32-bit range and agrees with `Integer.parseInt` on strings made only of digits and '-' |
| Integers.LenientIgnoresOther | src/main/java/au/ellie/hyui/html/TagHandler.java:336-342 | a character other than a digit or '-' changes nothing wherever it stands in the text |
| Integers.LenientJoinsDigits | src/main/java/au/ellie/hyui/html/TagHandler.java:336-342 | `1 0` reads leniently as 10 |
| Integers.LenientIgnoresUnit | src/main/java/au/ellie/hyui/html/TagHandler.java:336-342 | a number followed by a unit such as `px` parses leniently to the number |
| Integers.StrictRejectsUnit | src/main/java/au/ellie/hyui/html/TagHandler.java:167-208 | the same text is rejected by `Integer.parseInt`, so a plain element ignores `anchor-left: 10px` |
| Elements.PreOrder | src/main/java/au/ellie/hyui/builders/HyUInterface.java:78-86 | the depth-first order of an element forest contains every top-level element |
| Elements.PreOrderAppend | src/main/java/au/ellie/hyui/builders/HyUInterface.java:53-56 | the pre-order of two forests side by side is the pre-order of the first, then of the second |
| Elements.PreOrderHasChildren | src/main/java/au/ellie/hyui/builders/HyUInterface.java:138-140 | the pre-order holds the children of each element it holds |
| StyleAttribute.SplitDecl | src/main/java/au/ellie/hyui/html/TagHandler.java:64-67 | a declaration yields an entry exactly when it holds ':'; the key is trimmed and lower-case, and the value is trimmed |
| StyleAttribute.ParseStyleAttribute | src/main/java/au/ellie/hyui/html/TagHandler.java:60-70 | every key of the parsed map is trimmed and lower-case, and every value is trimmed; the map is the one Java's `split`, which drops trailing empty pieces, leads to |
| StyleAttribute.ParseDeclsDropTrailing | src/main/java/au/ellie/hyui/html/TagHandler.java:62-68 | trailing empty declarations add nothing to the map, so keeping or dropping them gives the same result |
| StyleAttribute.ParseDeclsKeys | src/main/java/au/ellie/hyui/html/TagHandler.java:63-68 | a key is in the map exactly when some declaration declares it |
| StyleAttribute.ParseDeclsLast | src/main/java/au/ellie/hyui/html/TagHandler.java:63-68 | the value of a key is the one from its last declaration |
| StyleAttribute.ParseStyleTextKeys | src/main/java/au/ellie/hyui/html/TagHandler.java:60-70 | parsing a serialized list of well-formed entries gives exactly their keys |
| StyleAttribute.ParseStyleTextLast | src/main/java/au/ellie/hyui/html/TagHandler.java:60-70 | parsing a serialized list of well-formed entries gives each key the value of its last entry |
| StyleAttribute.DeclWithoutColonDropped | src/main/java/au/ellie/hyui/html/TagHandler.java:65 | an attribute without any ':' parses to the empty map |
| StyleAttribute.DeclRoundTrip | src/main/java/au/ellie/hyui/html/TagHandler.java:64-66 | a well-formed entry written as `key: value` splits back to itself |
| StyleAttribute.Seen | src/main/java/au/ellie/hyui/html/TagHandler.java:85 | the entries visited along an order are exactly the keys listed, with their values |
| StyleAttribute.Capitalize | src/main/java/au/ellie/hyui/html/TagHandler.java:344-354 | a value equal ignoring case to `topscrolling`, `bottomscrolling`, `middlecenter`, `centermiddle` or `leftcenterwrap` becomes `TopScrolling`, `BottomScrolling`, `MiddleCenter`, `CenterMiddle` or `LeftCenterWrap`; any other value keeps everything after its first character; the result always has the input's length, equals it ignoring case, and does not start with a lower-case letter |
| StyleAttribute.LayoutNameSpelling | src/main/java/au/ellie/hyui/html/TagHandler.java:347-351 | the fixed spelling chosen for a layout name has the input's length, equals it ignoring case, and starts with a capital |
| StyleAttribute.TopScrollingFits | src/main/java/au/ellie/hyui/html/TagHandler.java:347 | `TopScrolling` is a capitalized spelling of any string equal to "topscrolling" ignoring case |
| StyleAttribute.BottomScrollingFits | src/main/java/au/ellie/hyui/html/TagHandler.java:348 | likewise for `BottomScrolling` |
| StyleAttribute.MiddleCenterFits | src/main/java/au/ellie/hyui/html/TagHandler.java:349 | likewise for `MiddleCenter` |
| StyleAttribute.CenterMiddleFits | src/main/java/au/ellie/hyui/html/TagHandler.java:350 | likewise for `CenterMiddle` |
| StyleAttribute.LeftCenterWrapFits | src/main/java/au/ellie/hyui/html/TagHandler.java:351 | likewise for `LeftCenterWrap` |
| StyleAttribute.CapitalizeIdempotent | src/main/java/au/ellie/hyui/html/TagHandler.java:344-354 | capitalizing twice is the same as capitalizing once |
| StyleAttribute.SettledByOnly | src/main/java/au/ellie/hyui/html/TagHandler.java:148-161 | when only one step requests a value, the outcome is that request, or the start when it requests nothing |
| StyleAttribute.SettledSomeByOnly | src/main/java/au/ellie/hyui/html/TagHandler.java:128-135 | the same for an optional outcome |
| Commands.PaddingCommands | src/main/java/au/ellie/hyui/html/TagHandler.java:213-225 | the padding hook sets at most one property, and sets `.Padding` exactly when the value has one, two or four whitespace-separated parts, with Left, Top, Right and Bottom taken as the source assigns them |
| Commands.PaddingOfWords | src/main/java/au/ellie/hyui/html/TagHandler.java:213-225 | for any list of words joined by spaces, the hook sees exactly those words |
| Commands.PaddingOneValue | src/main/java/au/ellie/hyui/html/TagHandler.java:215-217 | `10` pads all four sides with 10 |
| Commands.PaddingTwoValues | src/main/java/au/ellie/hyui/html/TagHandler.java:218-220 | `10 20` pads top and bottom with 10 and left and right with 20 |
| Commands.PaddingThreeValues | src/main/java/au/ellie/hyui/html/TagHandler.java:214-224 | `10 20 30` sets nothing |
| Commands.PaddingFourValues | src/main/java/au/ellie/hyui/html/TagHandler.java:221-223 | `10 20 30 40` pads top 10, right 20, bottom 30, left 40 |
| Commands.RunHook | src/main/java/au/ellie/hyui/html/TagHandler.java:320-332 | the style-definition hook fails exactly when the selector has no space (`substring(0, -1)` throws); every other hook succeeds with at most one command, and the background hook of line 104 sets `.Background` to its value |
| Commands.HoistedStyleShared | src/main/java/au/ellie/hyui/html/TagHandler.java:320-332 | the definition hook appends `@CustomStyleN = dsl;` inline into the selector's parent, and the use hook sets `.Style` to `$.CustomStyleN` with the same name |
| ButtonStyleGenerator.GetCssValue | src/main/java/au/ellie/hyui/html/ButtonStyleGenerator.java:130-138 | nothing is returned exactly when every listed key is absent or empty; otherwise the value of the first key that is present and non-empty |
| ButtonStyleGenerator.BackgroundPrecedence | src/main/java/au/ellie/hyui/html/ButtonStyleGenerator.java:80 | `background` wins over `background-color`, which is used only when `background` is missing or empty |
| ButtonStyleGenerator.UnreadStateEmpty | src/main/java/au/ellie/hyui/html/ButtonStyleGenerator.java:76-125 | a state map holding none of the keys the generator reads contributes no field |
| ButtonStyleGenerator.UnreadDefaultLiteral | src/main/java/au/ellie/hyui/html/ButtonStyleGenerator.java:26-39 | a non-empty default state with no readable key yields `TextButtonStyle(Default: ())` |
| ButtonStyleGenerator.AppendButtonStateProperties | src/main/java/au/ellie/hyui/html/ButtonStyleGenerator.java:76-125 | the builder steps append the resolved fields of a state separated by ", ", in the fixed order Background, then LabelStyle(TextColor, FontSize, RenderBold, RenderUppercase) |
| ButtonStyleGenerator.AppendFieldsJoins | src/main/java/au/ellie/hyui/html/ButtonStyleGenerator.java:80-124 | appending ", " before each field whenever something came before puts the separator exactly between the fields present |
| ButtonStyleGenerator.LabelItemsSelected | src/main/java/au/ellie/hyui/html/ButtonStyleGenerator.java:88-118 | the label builder keeps, in order, exactly the label fields the state resolves |
| ButtonStyleGenerator.StateItemsSelected | src/main/java/au/ellie/hyui/html/ButtonStyleGenerator.java:80-124 | the state builder keeps Background when present, then LabelStyle exactly when some label field resolved |
| ButtonStyleGenerator.StateBlock | src/main/java/au/ellie/hyui/html/ButtonStyleGenerator.java:35-37 | one state's block is its name, ": (", its joined fields and ")" |
| ButtonStyleGenerator.GenerateTextButtonStyleDsl | src/main/java/au/ellie/hyui/html/ButtonStyleGenerator.java:20-70 | a literal exists exactly when the default state is non-null and non-empty, and it joins with ", " the Default section and then the present Hovered, Pressed and Disabled sections, in that order |
| ButtonStyleGenerator.SectionsJoined | src/main/java/au/ellie/hyui/html/ButtonStyleGenerator.java:34-66 | after the Default block, the optional blocks extend the text to exactly the joined sections |
| ButtonStyleGenerator.OptionalStatesSelected | src/main/java/au/ellie/hyui/html/ButtonStyleGenerator.java:42-66 | a Hovered, Pressed or Disabled block appears exactly when its map is non-null and non-empty |
| ButtonStyleGenerator.GeneratedShape | src/main/java/au/ellie/hyui/html/ButtonStyleGenerator.java:30-39 | every literal starts with `TextButtonStyle(Default: (` and ends with ')' |
| ButtonStyleGenerator.NoDefaultNoStyle | src/main/java/au/ellie/hyui/html/ButtonStyleGenerator.java:26-28 | with a null or empty default map there is no literal, whatever the other states hold |
| ButtonStyleGenerator.DefaultSectionIsolated | src/main/java/au/ellie/hyui/html/ButtonStyleGenerator.java:34-66 | changing the Hovered, Pressed or Disabled maps never changes the Default section at the head of the literal |
| ButtonStyles.RouteNames | src/main/java/au/ellie/hyui/html/TagHandler.java:262-299 | a key takes the hover or disabled route exactly when it has that prefix, keeping the suffix as the property; the pressed route is reached only from `--pressed-` and `--active-` keys; the anchor route is taken exactly by `anchor-` keys, and the flex route exactly by `flex-weight` |
| ButtonStyles.PressedRoutes | src/main/java/au/ellie/hyui/html/TagHandler.java:266-269 | `--pressed-p` and `--active-p` both fill property p of the pressed bucket |
| ButtonStyles.PressedWriters | src/main/java/au/ellie/hyui/html/TagHandler.java:266-269 | those two keys are the only ones that write pressed property p |
| ButtonStyles.SortButtonStyles | src/main/java/au/ellie/hyui/html/TagHandler.java:258-300 | in every iteration order the default bucket is the same map of the unprefixed, unhandled keys, and hover and disabled hold exactly the suffixes of their prefixed keys; pressed p holds the request of the last of its writers |
| ButtonStyles.PressedLastWriter | src/main/java/au/ellie/hyui/html/TagHandler.java:266-269 | pressed p takes the value of the writer iterated last |
| ButtonStyles.PressedValue | src/main/java/au/ellie/hyui/html/TagHandler.java:266-269 | pressed p is present exactly when either writer is; with one writer it holds that writer's value; with two it holds one of their values |
| ButtonStyles.PressedLaterWins | src/main/java/au/ellie/hyui/html/TagHandler.java:266-269 | when both writers are present, the one later in the iteration order wins |
| ButtonStyles.NoPseudoNoStates | src/main/java/au/ellie/hyui/html/TagHandler.java:262-273 | a map with no pseudo-state key leaves the hover, pressed and disabled buckets empty |
| ButtonStyles.ButtonDsl | src/main/java/au/ellie/hyui/html/TagHandler.java:309-314 | the generator is handed the buckets as null when empty, so a literal exists exactly when the default bucket is non-empty |
| ButtonStyles.ApplyButtonStyles | src/main/java/au/ellie/hyui/html/TagHandler.java:247-334 | a parsed `anchor-` edge sets the anchor (lenient parse); `flex-weight` sets the weight when it parses; with an empty default bucket no hook is added, otherwise the generated literal is defined before the button and used after it; nothing else changes |
| ButtonStyles.UnreadDefaultStillHoists | src/main/java/au/ellie/hyui/html/TagHandler.java:296-326 | default-bucket keys the generator does not read still hoist `TextButtonStyle(Default: ())` |
| ButtonStyles.FullAnchorOnButton | src/main/java/au/ellie/hyui/html/TagHandler.java:274-299 | the full `anchor` key on a button sets no anchor, because it lands in the default bucket |
| ButtonStyles.PseudoOnlyNoHooks | src/main/java/au/ellie/hyui/html/TagHandler.java:309-332 | a button with only pseudo-state entries gets no style hooks |
| TagHandler.ClassifyNames | src/main/java/au/ellie/hyui/html/TagHandler.java:89-208 | pseudo-state keys are skipped first; each case label of the switch, and only that label, selects its case |
| TagHandler.WalkResolves | src/main/java/au/ellie/hyui/html/TagHandler.java:85-208 | after any walk over distinct keys, style, anchor, flex weight and the multiset of after-hooks depend only on the entries visited, not on their order |
| TagHandler.WalkVisibility | src/main/java/au/ellie/hyui/html/TagHandler.java:148-161 | visibility ends as the last request a `visibility` or `display` entry made during the walk, or unchanged without one |
| TagHandler.WalkLayout | src/main/java/au/ellie/hyui/html/TagHandler.java:128-135 | a group's layout mode ends as the capitalized value of the last layout key walked; other kinds keep theirs |
| TagHandler.ApplyPlainStyles | src/main/java/au/ellie/hyui/html/TagHandler.java:79-236 | a non-button gets the resolved style and anchor only when some case set them; it gets the flex weight of a parsing `flex-weight` and the background and padding hooks as a multiset; visibility and layout are settled by the last request; nothing else changes |
| TagHandler.ApplyStyles | src/main/java/au/ellie/hyui/html/TagHandler.java:72-237 | buttons go to the button path, which keeps style, visibility and layout and sets the lenient anchor; other elements go to the plain path and keep their before-hooks; in both the ids, values, listeners and children are untouched |
| TagHandler.ApplyCommonAttributes | src/main/java/au/ellie/hyui/html/TagHandler.java:39-58 | `id` sets the user id; a parsing `data-hyui-flexweight` sets the weight; without `style` nothing else changes; with `style` the parsed map is then applied through `ApplyStyles` to the element carrying that id and weight |
| TagHandler.StyleAttributeOnPlain | src/main/java/au/ellie/hyui/html/TagHandler.java:54-57 | on a non-button, the `style` attribute's map sets style and anchor when some entry resolves them, adds its background and padding hooks, and settles visibility by the last request |
| TagHandler.StyleAttributeOnButton | src/main/java/au/ellie/hyui/html/TagHandler.java:54-57 | on a button, the `style` attribute's map sets the lenient anchor and hoists a style exactly when its default bucket is non-empty; style, visibility and layout mode stay |
| TagHandler.StyleFlexWins | src/main/java/au/ellie/hyui/html/TagHandler.java:48-57 | a parsing `flex-weight` in the style wins over the attribute |
| TagHandler.PseudoKeyIgnored | src/main/java/au/ellie/hyui/html/TagHandler.java:89-93 | adding a pseudo-state entry at any position of the iteration order does not change a non-button |
| TagHandler.WalkAppend | src/main/java/au/ellie/hyui/html/TagHandler.java:85-87 | walking two runs of keys in turn is walking their concatenation |
| TagHandler.WalkReadsOnlyOrder | src/main/java/au/ellie/hyui/html/TagHandler.java:85-87 | the walk reads only the entries it visits |
| TagHandler.VisibilityRequestOf | src/main/java/au/ellie/hyui/html/TagHandler.java:148-161 | `visibility` requests hidden for `hidden` and visible for `shown`, `display` hidden for `none` and visible for `block`, ignoring case; any other value requests nothing |
| TagHandler.VisibilityWithoutConflict | src/main/java/au/ellie/hyui/html/TagHandler.java:148-161 | with at most one of `visibility` and `display` present, its request decides visibility in every iteration order |
| TagHandler.LayoutWithoutConflict | src/main/java/au/ellie/hyui/html/TagHandler.java:128-135 | with one layout key present, a group's layout mode is its capitalized value in every iteration order |
| TagHandler.ButtonUnitAnchor | src/main/java/au/ellie/hyui/html/TagHandler.java:274-287 | `anchor-left: Npx` on a button sets the left edge to N |
| TagHandler.PlainUnitAnchor | src/main/java/au/ellie/hyui/html/TagHandler.java:167-172 | the same entry on a plain element sets no anchor |
| TagHandler.UnitAnchorOnlyOnButtons | src/main/java/au/ellie/hyui/html/TagHandler.java:167-208 | a united anchor value works on buttons and not on plain elements |
| HyUInterface.GetValue | src/main/java/au/ellie/hyui/builders/HyUInterface.java:36-38 | a value is returned exactly when the cache holds the id, and it is the cached one |
| HyUInterface.CaptureForestPreOrder | src/main/java/au/ellie/hyui/builders/HyUInterface.java:78-86 | the recursive capture equals capturing along the pre-order of the forest |
| HyUInterface.CaptureAlongAppend | src/main/java/au/ellie/hyui/builders/HyUInterface.java:53-56 | capturing two forests in turn equals capturing their concatenation |
| HyUInterface.CaptureAlongSettles | src/main/java/au/ellie/hyui/builders/HyUInterface.java:78-86 | the cached value of an id is the initial value of the last element in pre-order with that id and an initial value |
| HyUInterface.RunCallbacks | src/main/java/au/ellie/hyui/builders/HyUInterface.java:46-50 | the edit callbacks append their commands in list order |
| HyUInterface.FileCommands | src/main/java/au/ellie/hyui/builders/HyUInterface.java:42-44 | the UI file is appended exactly when it is set |
| HyUInterface.BuildElements | src/main/java/au/ellie/hyui/builders/HyUInterface.java:53-56 | the element loop captures the forest and emits each element in turn |
| HyUInterface.Build | src/main/java/au/ellie/hyui/builders/HyUInterface.java:40-76 | commands are the file, then the callbacks, then each element's; the cache is cleared and then holds the captured initial values; nothing else changes |
| HyUInterface.BuildCachesInitialValues | src/main/java/au/ellie/hyui/builders/HyUInterface.java:52-56 | after a build an id is cached exactly when some element with that id has an initial value |
| HyUInterface.BuildSingleInitialValue | src/main/java/au/ellie/hyui/builders/HyUInterface.java:78-86 | an id held by one element reads back that element's initial value |
| HyUInterface.FinalValue | src/main/java/au/ellie/hyui/builders/HyUInterface.java:114-124 | a value arises only for a value-changed event aimed at the element, and it is `parse` of `RefValue` or `Value` as the element requires |
| HyUInterface.OnListener | src/main/java/au/ellie/hyui/builders/HyUInterface.java:106-134 | a listener makes at most one call, only when the event targets the element: a click without payload for an activating listener, or the final value for a value-changed one; the cache changes only at the user id and only with that value, and a value call finds its payload already cached under the user id |
| HyUInterface.Fired | src/main/java/au/ellie/hyui/builders/HyUInterface.java:106-134 | a listener fires exactly when its binding, the action and the target match |
| HyUInterface.InvocationsAnswer | src/main/java/au/ellie/hyui/builders/HyUInterface.java:94-140 | every call of the walk answers some listener of some element walked |
| HyUInterface.RouteForestPreOrder | src/main/java/au/ellie/hyui/builders/HyUInterface.java:94-96 | the recursive routing equals routing along the pre-order of the forest |
| HyUInterface.RouteAlongValues | src/main/java/au/ellie/hyui/builders/HyUInterface.java:126-128 | the cached value of an id is the final value of the last element in pre-order that writes it |
| HyUInterface.RouteAlongTrace | src/main/java/au/ellie/hyui/builders/HyUInterface.java:99-141 | the calls are those of each element in pre-order, each element's in listener order |
| HyUInterface.HandleDataEvent | src/main/java/au/ellie/hyui/builders/HyUInterface.java:88-141 | the calls are the pre-order invocations; each id's cache entry is settled by the last write to it; nothing else changes |
| HyUInterface.CallsAnswerTargets | src/main/java/au/ellie/hyui/builders/HyUInterface.java:103-134 | every call answers a listener of an element in the tree |
| HyUInterface.UntargetedEventIgnored | src/main/java/au/ellie/hyui/builders/HyUInterface.java:103-110 | an event aimed at no element changes nothing and calls nobody |
| HyUInterface.UnparsableValuesDropped | src/main/java/au/ellie/hyui/builders/HyUInterface.java:122-133 | when no value parses the cache is unchanged and every call is a click without payload |
| HyUInterface.CacheWritersTargeted | src/main/java/au/ellie/hyui/builders/HyUInterface.java:111-128 | a changed cache entry comes from a value-changed event aimed at an element with that id and a value-changed listener |
| HyUInterface.ValueChangeCached | src/main/java/au/ellie/hyui/builders/HyUInterface.java:126-128 | the only element with an id, having a value listener and a final value, leaves that value in the cache |
| HyUInterface.EveryListenerReached | src/main/java/au/ellie/hyui/builders/HyUInterface.java:94-140 | every matching listener anywhere in the tree is called with the right payload |
| HyUIHud.WithRootVisibility | src/main/java/au/ellie/hyui/builders/HyUIHud.java:49-53 | top-level elements with id `HyUIRoot` get the visibility; all others are unchanged |
| HyUIHud.SetVisibilityOnRoot | src/main/java/au/ellie/hyui/builders/HyUIHud.java:48-58 | the roots take the value; file and callbacks stay; the cache is rebuilt from initial values; one update with the rebuilt commands is pushed; the hidden flag flips |
| HyUIHud.Hide | src/main/java/au/ellie/hyui/builders/HyUIHud.java:35-37 | every root ends hidden and the flag flips |
| HyUIHud.Show | src/main/java/au/ellie/hyui/builders/HyUIHud.java:39-41 | every root ends visible and the flag flips |
| HyUIHud.ConfigureFrom | src/main/java/au/ellie/hyui/builders/HyUIHud.java:60-67 | the delegate takes the spec's file, elements and callbacks, keeps its cache, and an empty builder is returned |
| HyUIHud.Update | src/main/java/au/ellie/hyui/builders/HyUIHud.java:30-33 | the HUD is reconfigured and pushes one update carrying that empty builder |
| HyUIHud.GetValue | src/main/java/au/ellie/hyui/builders/HyUIHud.java:43-46 | reads the delegate's cache |
| HyUIHud.HideTwiceRestoresFlag | src/main/java/au/ellie/hyui/builders/HyUIHud.java:35-37 | hiding twice restores the flag, so `isHidden` is not a record of visibility, and leaves the roots hidden |
| HyUIHud.ShowAfterHide | src/main/java/au/ellie/hyui/builders/HyUIHud.java:35-41 | showing after hiding restores visible roots and the flag, at the cost of two updates |
| HyUIHud.VisibilityResetsValues | src/main/java/au/ellie/hyui/builders/HyUIHud.java:54-56 | after hide or show an id is cached exactly when some element has it with an initial value, so event values are lost |

## Left out

- Case mapping, `trim` and `\\s` are ASCII only. Java's full Unicode behaviour is not modelled.
- Strings.SplitOn keeps trailing empty pieces, which Java's `split(";")` drops. Strings.JavaSplit models Java's rule. The parser runs on SplitOn, and StyleAttribute.ParseStyleAttribute proves that its map equals the one built from JavaSplit, because empty pieces hold no ':'.
- Integers.ParseInt reads ASCII digits only. Java's `parseInt` also accepts other Unicode decimal digits (`Character.digit`), and the model rejects them.
- HyUInterface.OnListener: a recorded invocation carries no snapshot of the cache. Callbacks are not run, so "the cache the callback sees" is stated as the cache at the end of the listener's step. That step writes the cache before it records the call.
- The tooltip attribute (TagHandler.java:44-46) and all logging are left out. `Message.raw` and the logger are outside the model.
- The instance checks inside the non-button switch (TagHandler.java:109, 116, 123) are left out. Buttons never reach that code, so those checks are always true.
- `UIElementBuilder.build`, `parseValue` and `usesRefValue` are represented by parameters and fields:
  - building one element is the `emit` parameter;
  - parsing a value is the `parse` parameter;
  - `usesRefValue`, `getId` and `getEffectiveId` are fields of the element.
- `Math.abs(selector.hashCode())` is the `hashDigits` parameter. Its one negative result, for `Integer.MIN_VALUE`, is not modelled.
- `HashMap` iteration order is the `order` parameter. The relative order of a plain element's after-hooks is stated only as a multiset.
- TagHandler.WalkVisibility: when both `visibility` and `display` are present, the contract says only that the last of the two in iteration order decides. The same holds for TagHandler.WalkLayout with several layout keys, and for ButtonStyles.PressedValue when both pressed writers are present.
- The event builder is not modelled.
  - `build` and `buildFromCommandBuilder` differ only in the event builder they pass on, so one HyUInterface.Build models both.
  - Event bindings are not modelled. Listeners are the element's `(binding, callback)` pairs.
  - A callback invocation is recorded as the callback's index and its payload. `UIEventListener` bodies are not run.
- `UIEventActions` constants are the `Action` datatype. Event data is a map from names to values.
- Edit callbacks (`Consumer<UICommandBuilder>`) are represented by the commands each appends.
- The following are not modelled, beyond reducing HudBuilder to the three fields `configureFrom` reads:
  - `HyUIHud.build` (HyUIHud.java:26-28);
  - the host side of `update(boolean, builder)`, which is recorded as a list of pushed updates;
  - PageBuilder and HudBuilder.
- `withVisible` mutates the shared element in place. The model returns a new tree.
