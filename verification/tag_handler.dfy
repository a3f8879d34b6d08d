/**
 TagHandler's attribute handling: `applyCommonAttributes` (id, flex weight, style),
 and `applyStyles` for elements other than buttons, which walks the parsed style map
 once, filling a fresh HyUIStyle and HyUIAnchor and editing the element directly;
 buttons go to `applyButtonStyles` in the ButtonStyles module.

 The walk visits the hash map's entries in an order the program does not fix, so
 the order is a parameter. Style, anchor, flex weight and the set of registered hooks
 come out the same for every order; visibility, layout mode and the order of the
 hooks are decided by the last entry in that order that asks for them.
 */
module TagHandler {
  import opened Wrappers
  import opened Strings
  import opened Integers
  import opened Elements
  import opened StyleAttribute
  import ButtonStyles

  /** The pseudo-state prefixes that only buttons act on. */
  predicate IsPseudoKey(k: string) {
    "--hover-" <= k || "--pressed-" <= k || "--active-" <= k || "--disabled-" <= k
  }

  /** The case labels of the `switch (key)`, with pseudo-state keys (skipped first) and keys no case names. */
  datatype Prop =
    | Pseudo | Color | BackgroundProp | FontSize | FontWeight | TextTransform | LayoutProp
    | VerticalAlign | HorizontalAlign | Align | Visibility | Display | FlexWeight
    | AnchorLeft | AnchorRight | AnchorTop | AnchorBottom | AnchorWidth | AnchorHeight | AnchorFull
    | Padding | Unlisted

  /** Which case of the switch a key selects. */
  function Classify(k: string): Prop {
    if IsPseudoKey(k) then Pseudo
    else if k == "color" then Color
    else if k == "background" || k == "background-color" then BackgroundProp
    else if k == "font-size" then FontSize
    else if k == "font-weight" then FontWeight
    else if k == "text-transform" then TextTransform
    else if k == "text-align" || k == "layout-mode" || k == "layout" then LayoutProp
    else if k == "vertical-align" then VerticalAlign
    else if k == "horizontal-align" then HorizontalAlign
    else if k == "align" then Align
    else if k == "visibility" then Visibility
    else if k == "display" then Display
    else if k == "flex-weight" then FlexWeight
    else if k == "anchor-left" then AnchorLeft
    else if k == "anchor-right" then AnchorRight
    else if k == "anchor-top" then AnchorTop
    else if k == "anchor-bottom" then AnchorBottom
    else if k == "anchor-width" then AnchorWidth
    else if k == "anchor-height" then AnchorHeight
    else if k == "anchor" then AnchorFull
    else if k == "padding" then Padding
    else Unlisted
  }

  /** Every pseudo-state key starts with '-', which no case label does. */
  lemma PseudoStartsWithDash(k: string)
    requires IsPseudoKey(k)
    ensures |k| > 0 && k[0] == '-'
  {
  }

  /** The keys the style case labels name. */
  predicate StyleNames(c: Prop, k: string) {
    && (c == Color <==> k == "color")
    && (c == FontSize <==> k == "font-size")
    && (c == FontWeight <==> k == "font-weight")
    && (c == TextTransform <==> k == "text-transform")
    && (c == VerticalAlign <==> k == "vertical-align")
    && (c == HorizontalAlign <==> k == "horizontal-align")
    && (c == Align <==> k == "align")
  }

  /** The keys the anchor case labels name. */
  predicate AnchorNames(c: Prop, k: string) {
    && (c == AnchorLeft <==> k == "anchor-left")
    && (c == AnchorRight <==> k == "anchor-right")
    && (c == AnchorTop <==> k == "anchor-top")
    && (c == AnchorBottom <==> k == "anchor-bottom")
    && (c == AnchorWidth <==> k == "anchor-width")
    && (c == AnchorHeight <==> k == "anchor-height")
    && (c == AnchorFull <==> k == "anchor")
  }

  /** The keys the hook and flex-weight case labels name. */
  predicate ElementNames(c: Prop, k: string) {
    && (c == BackgroundProp <==> k == "background" || k == "background-color")
    && (c == FlexWeight <==> k == "flex-weight")
    && (c == Padding <==> k == "padding")
  }

  /** The keys that make visibility and layout requests. */
  predicate RequestNames(c: Prop, k: string) {
    && (c == Visibility <==> k == "visibility")
    && (c == Display <==> k == "display")
    && (c == LayoutProp <==> k == "text-align" || k == "layout-mode" || k == "layout")
  }

  /** Each case is selected by exactly the keys its label names. */
  lemma ClassifyNames(k: string)
    ensures StyleNames(Classify(k), k) && AnchorNames(Classify(k), k) && ElementNames(Classify(k), k)
    ensures RequestNames(Classify(k), k)
  {
    var c := Classify(k);
    if IsPseudoKey(k) {
      PseudoStartsWithDash(k);
      assert c == Pseudo;
    } else if k == "color" { assert c == Color; }
    else if k == "background" || k == "background-color" { assert c == BackgroundProp; }
    else if k == "font-size" { assert c == FontSize; }
    else if k == "font-weight" { assert c == FontWeight; }
    else if k == "text-transform" { assert c == TextTransform; }
    else if k == "text-align" || k == "layout-mode" || k == "layout" { assert c == LayoutProp; }
    else if k == "vertical-align" { assert c == VerticalAlign; }
    else if k == "horizontal-align" { assert c == HorizontalAlign; }
    else if k == "align" { assert c == Align; }
    else if k == "visibility" { assert c == Visibility; }
    else if k == "display" { assert c == Display; }
    else if k == "flex-weight" { assert c == FlexWeight; }
    else if k == "anchor-left" { assert c == AnchorLeft; }
    else if k == "anchor-right" { assert c == AnchorRight; }
    else if k == "anchor-top" { assert c == AnchorTop; }
    else if k == "anchor-bottom" { assert c == AnchorBottom; }
    else if k == "anchor-width" { assert c == AnchorWidth; }
    else if k == "anchor-height" { assert c == AnchorHeight; }
    else if k == "anchor" { assert c == AnchorFull; }
    else if k == "padding" { assert c == Padding; }
    else { assert c == Unlisted; }
  }

  /** The element being edited, with the style and anchor collected so far and whether any field of each was set. */
  datatype Pending = Pending(el: Element, style: Style, anchor: Anchor, hasStyle: bool, hasAnchor: bool)

  /** The state before the walk: a fresh style and anchor, nothing set. */
  function Start(el: Element): Pending {
    Pending(el, EmptyStyle, EmptyAnchor, false, false)
  }

  /** One entry of the walk: the body of the loop, pseudo-state skip and `switch (key)`. */
  function ApplyEntry(p: Pending, k: string, v: string): Pending {
    ApplyCase(p, Classify(k), v)
  }

  /**
   The effect of one case of the switch. Each case writes to one of three places,
   so the switch is given as three parts: the cases that fill the style (and raise
   `hasStyle`), those that fill the anchor (and raise `hasAnchor`), and those that
   edit the element itself.
   */
  function ApplyCase(p: Pending, c: Prop, v: string): Pending {
    Pending(
      el := ElementCase(p.el, c, v),
      style := StyleCase(p.style, c, v),
      anchor := AnchorCase(p.anchor, c, v),
      hasStyle := p.hasStyle || SetsStyle(c, v),
      hasAnchor := p.hasAnchor || SetsAnchor(c, v))
  }

  /** The cases that call a HyUIStyle setter. */
  function StyleCase(s: Style, c: Prop, v: string): Style {
    match c
    case Color => s.(textColor := Some(v))
    case FontSize => s.(fontSize := Some(v))
    case FontWeight => if MatchesWord(v, "bold") then s.(renderBold := Some(true)) else s
    case TextTransform => if MatchesWord(v, "uppercase") then s.(renderUppercase := Some(true)) else s
    case VerticalAlign => s.(verticalAlignment := Some(Capitalize(v)))
    case HorizontalAlign => s.(horizontalAlignment := Some(Capitalize(v)))
    case Align => s.(alignment := Some(Capitalize(v)))
    case _ => s
  }

  /** The cases that set `hasStyle`. */
  predicate SetsStyle(c: Prop, v: string) {
    || c == Color || c == FontSize || c == VerticalAlign || c == HorizontalAlign || c == Align
    || (c == FontWeight && MatchesWord(v, "bold"))
    || (c == TextTransform && MatchesWord(v, "uppercase"))
  }

  /** The cases that call a HyUIAnchor setter, when the value parses. */
  function AnchorCase(a: Anchor, c: Prop, v: string): Anchor {
    match ParseInt(v)
    case None => a
    case Some(n) =>
      match c
      case AnchorLeft => a.(left := Some(n))
      case AnchorRight => a.(right := Some(n))
      case AnchorTop => a.(top := Some(n))
      case AnchorBottom => a.(bottom := Some(n))
      case AnchorWidth => a.(width := Some(n))
      case AnchorHeight => a.(height := Some(n))
      case AnchorFull => a.(full := Some(n))
      case _ => a
  }

  /** The anchor cases, which set `hasAnchor` when the value parses. */
  predicate IsAnchorCase(c: Prop) {
    c == AnchorLeft || c == AnchorRight || c == AnchorTop || c == AnchorBottom
    || c == AnchorWidth || c == AnchorHeight || c == AnchorFull
  }

  predicate SetsAnchor(c: Prop, v: string) {
    IsAnchorCase(c) && ParseInt(v).Some?
  }

  /** The cases that edit the element: background and padding hooks, layout mode, visibility, flex weight. */
  function ElementCase(el: Element, c: Prop, v: string): Element {
    match c
    case BackgroundProp => el.(after := el.after + [SetBackground(v)])
    case LayoutProp => if el.kind == Group then el.(layoutMode := Some(Capitalize(v))) else el
    case Visibility =>
      if MatchesWord(v, "hidden") then el.(visible := false)
      else if MatchesWord(v, "shown") then el.(visible := true)
      else el
    case Display =>
      if MatchesWord(v, "none") then el.(visible := false)
      else if MatchesWord(v, "block") then el.(visible := true)
      else el
    case FlexWeight =>
      (match ParseInt(v)
       case Some(n) => el.(flexWeight := Some(n))
       case None => el)
    case Padding => if el.kind == Group then el.(after := el.after + [SetPadding(v)]) else el
    case _ => el
  }

  /** The walk over the entries in `order`, each applied after those before it. */
  function ApplyEntries(p: Pending, styles: Styles, order: seq<string>): (r: Pending)
    requires Within(order, styles)
    ensures r.el == p.el.(visible := r.el.visible, flexWeight := r.el.flexWeight, layoutMode := r.el.layoutMode, after := r.el.after)
    ensures p.el.after <= r.el.after
    decreases |order|
  {
    if order == [] then p
    else
      var k := order[|order| - 1];
      var q := ApplyEntries(p, styles, order[..|order| - 1]);
      CaseFrame(q.el, Classify(k), styles[k]);
      ApplyEntry(q, k, styles[k])
  }

  /** After the walk: `withStyle` and `withAnchor` only when some field was set. */
  function Finish(p: Pending): Element {
    var el := if p.hasStyle then p.el.(style := Some(p.style)) else p.el;
    if p.hasAnchor then el.(anchor := Some(p.anchor)) else el
  }

  // Order-free reference definitions of what the walk collects.

  /** The value at `k`, capitalized, when present. */
  function CapitalizedAt(m: Styles, k: string): Option<string> {
    if k in m then Some(Capitalize(m[k])) else None
  }

  /** The value at `k` equals `word` ignoring case. */
  predicate AsksFor(m: Styles, k: string, word: string) {
    k in m && MatchesWord(m[k], word)
  }

  /** The style the map describes: one field per property, unset when the property is absent or not understood. */
  function ResolvedStyle(m: Styles): Style {
    Style(
      textColor := Lookup(m, "color"),
      fontSize := Lookup(m, "font-size"),
      renderBold := if AsksFor(m, "font-weight", "bold") then Some(true) else None,
      renderUppercase := if AsksFor(m, "text-transform", "uppercase") then Some(true) else None,
      verticalAlignment := CapitalizedAt(m, "vertical-align"),
      horizontalAlignment := CapitalizedAt(m, "horizontal-align"),
      alignment := CapitalizedAt(m, "align"))
  }

  /** The anchor the map describes: each edge or size that parses as an integer, and `anchor` as the full value. */
  function ResolvedAnchor(m: Styles): Anchor {
    Anchor(
      left := IntAt(m, "anchor-left"),
      right := IntAt(m, "anchor-right"),
      top := IntAt(m, "anchor-top"),
      bottom := IntAt(m, "anchor-bottom"),
      width := IntAt(m, "anchor-width"),
      height := IntAt(m, "anchor-height"),
      full := IntAt(m, "anchor"))
  }

  /** The after hooks the map registers, as a bag: one per background property, and padding on groups. */
  function HookBag(m: Styles, kind: Kind): multiset<Hook> {
    (if "background" in m then multiset{SetBackground(m["background"])} else multiset{})
    + (if "background-color" in m then multiset{SetBackground(m["background-color"])} else multiset{})
    + (if kind == Group && "padding" in m then multiset{SetPadding(m["padding"])} else multiset{})
  }

  /** What an entry asks of the element's visibility. */
  function VisibilityRequest(c: Prop, v: string): Option<bool> {
    if c == Visibility then
      if MatchesWord(v, "hidden") then Some(false) else if MatchesWord(v, "shown") then Some(true) else None
    else if c == Display then
      if MatchesWord(v, "none") then Some(false) else if MatchesWord(v, "block") then Some(true) else None
    else None
  }

  /** What an entry asks of the layout mode of a group; no other kind of element takes one. */
  function LayoutRequest(c: Prop, v: string): Option<string> {
    if c == LayoutProp then Some(Capitalize(v)) else None
  }

  /** The visibility requests of the entries, in iteration order. */
  function VisibilityRequests(styles: Styles, order: seq<string>): (rs: seq<Option<bool>>)
    requires Within(order, styles)
  {
    seq(|order|, i requires 0 <= i < |order| => VisibilityRequest(Classify(order[i]), styles[order[i]]))
  }

  /** The layout requests of the entries, in iteration order. */
  function LayoutRequests(styles: Styles, order: seq<string>): (rs: seq<Option<string>>)
    requires Within(order, styles)
  {
    seq(|order|, i requires 0 <= i < |order| => LayoutRequest(Classify(order[i]), styles[order[i]]))
  }

  lemma VisibilityRequestsSnoc(styles: Styles, order: seq<string>)
    requires Within(order, styles) && order != []
    ensures var k := order[|order| - 1];
      VisibilityRequests(styles, order) == VisibilityRequests(styles, order[..|order| - 1]) + [VisibilityRequest(Classify(k), styles[k])]
  {
  }

  lemma LayoutRequestsSnoc(styles: Styles, order: seq<string>)
    requires Within(order, styles) && order != []
    ensures var k := order[|order| - 1];
      LayoutRequests(styles, order) == LayoutRequests(styles, order[..|order| - 1]) + [LayoutRequest(Classify(k), styles[k])]
  {
  }

  // One step of the walk keeps each collected part equal to its reference on the entries seen.

  /** A case edits only visibility, flex weight, layout mode and the after hooks of the element. */
  lemma CaseFrame(el: Element, c: Prop, v: string)
    ensures var e := ElementCase(el, c, v);
      && e == el.(visible := e.visible, flexWeight := e.flexWeight, layoutMode := e.layoutMode, after := e.after)
      && el.after <= e.after
  {
  }

  lemma StyleStep(s: Style, has: bool, m: Styles, k: string, c: Prop, v: string)
    requires k !in m && StyleNames(c, k)
    requires s == ResolvedStyle(m) && has == (s != EmptyStyle)
    ensures var s' := StyleCase(s, c, v);
      s' == ResolvedStyle(m[k := v]) && (has || SetsStyle(c, v)) == (s' != EmptyStyle)
  {
  }

  lemma AnchorStep(a: Anchor, has: bool, m: Styles, k: string, c: Prop, v: string)
    requires k !in m && AnchorNames(c, k)
    requires a == ResolvedAnchor(m) && has == (a != EmptyAnchor)
    ensures var a' := AnchorCase(a, c, v);
      a' == ResolvedAnchor(m[k := v]) && (has || SetsAnchor(c, v)) == (a' != EmptyAnchor)
  {
  }

  lemma FlexStep(el: Element, m: Styles, k: string, c: Prop, v: string, initial: Option<int>)
    requires k !in m && ElementNames(c, k)
    requires el.flexWeight == FlexOf(m, initial)
    ensures ElementCase(el, c, v).flexWeight == FlexOf(m[k := v], initial)
  {
  }

  /** The hooks one case appends to the element's after list. */
  function CaseHooks(kind: Kind, c: Prop, v: string): seq<Hook> {
    if c == BackgroundProp then [SetBackground(v)]
    else if c == Padding && kind == Group then [SetPadding(v)]
    else []
  }

  lemma HookCase(el: Element, c: Prop, v: string)
    ensures ElementCase(el, c, v).after == el.after + CaseHooks(el.kind, c, v)
  {
    if CaseHooks(el.kind, c, v) == [] {
      assert el.after + [] == el.after;
    }
  }

  lemma HookStep(m: Styles, k: string, c: Prop, v: string, kind: Kind)
    requires k !in m && ElementNames(c, k)
    ensures HookBag(m[k := v], kind) == HookBag(m, kind) + multiset(CaseHooks(kind, c, v))
  {
  }

  lemma RequestStep(el: Element, c: Prop, v: string)
    ensures ElementCase(el, c, v).visible == VisibilityRequest(c, v).GetOr(el.visible)
    ensures el.kind == Group ==>
      (ElementCase(el, c, v).layoutMode ==
         match LayoutRequest(c, v)
         case Some(mode) => Some(mode)
         case None => el.layoutMode)
    ensures el.kind != Group ==> ElementCase(el, c, v).layoutMode == el.layoutMode
  {
  }

  /** The walk collects exactly the reference style, anchor, flex weight and hook bag of the entries seen. */
  lemma {:induction false} WalkResolves(el: Element, styles: Styles, order: seq<string>)
    requires Within(order, styles) && Distinct(order)
    ensures var r := ApplyEntries(Start(el), styles, order);
      var m := Seen(styles, order);
      && r.style == ResolvedStyle(m) && r.hasStyle == (r.style != EmptyStyle)
      && r.anchor == ResolvedAnchor(m) && r.hasAnchor == (r.anchor != EmptyAnchor)
      && r.el.flexWeight == FlexOf(m, el.flexWeight)
      && multiset(r.el.after) == multiset(el.after) + HookBag(m, el.kind)
    decreases |order|
  {
    if order == [] {
      assert Seen(styles, order) == map[];
    } else {
      var init := order[..|order| - 1];
      var k := order[|order| - 1];
      DistinctInit(order);
      WalkResolves(el, styles, init);
      var p := ApplyEntries(Start(el), styles, init);
      var m := Seen(styles, init);
      assert k !in m;
      assert Seen(styles, order) == m[k := styles[k]];
      var c := Classify(k);
      ClassifyNames(k);
      CaseFrame(p.el, c, styles[k]);
      StyleStep(p.style, p.hasStyle, m, k, c, styles[k]);
      AnchorStep(p.anchor, p.hasAnchor, m, k, c, styles[k]);
      FlexStep(p.el, m, k, c, styles[k], el.flexWeight);
      HookCase(p.el, c, styles[k]);
      HookStep(m, k, c, styles[k], el.kind);
    }
  }

  /** The walk leaves visibility to the last entry that asks for it. */
  lemma {:induction false} WalkVisibility(el: Element, styles: Styles, order: seq<string>)
    requires Within(order, styles)
    ensures SettledBy(VisibilityRequests(styles, order), el.visible, ApplyEntries(Start(el), styles, order).el.visible)
    decreases |order|
  {
    if order != [] {
      var init := order[..|order| - 1];
      var k := order[|order| - 1];
      WalkVisibility(el, styles, init);
      var p := ApplyEntries(Start(el), styles, init);
      var c := Classify(k);
      RequestStep(p.el, c, styles[k]);
      var x := VisibilityRequest(c, styles[k]);
      VisibilityRequestsSnoc(styles, order);
      SettledSnoc(VisibilityRequests(styles, init), x, el.visible, p.el.visible);
    }
  }

  /** On a group the walk leaves the layout mode to the last entry that asks for it; anything else keeps its own. */
  lemma {:induction false} WalkLayout(el: Element, styles: Styles, order: seq<string>)
    requires Within(order, styles)
    ensures el.kind == Group ==>
      SettledSomeBy(LayoutRequests(styles, order), el.layoutMode, ApplyEntries(Start(el), styles, order).el.layoutMode)
    ensures el.kind != Group ==> ApplyEntries(Start(el), styles, order).el.layoutMode == el.layoutMode
    decreases |order|
  {
    if order != [] {
      var init := order[..|order| - 1];
      var k := order[|order| - 1];
      WalkLayout(el, styles, init);
      var p := ApplyEntries(Start(el), styles, init);
      var c := Classify(k);
      RequestStep(p.el, c, styles[k]);
      if el.kind == Group {
        var y := LayoutRequest(c, styles[k]);
        LayoutRequestsSnoc(styles, order);
        SettledSomeSnoc(LayoutRequests(styles, init), y, el.layoutMode, p.el.layoutMode);
      }
    }
  }

  /**
   `applyStyles` for an element that is not a button. Style and anchor are attached
   only when some field resolved, and are then exactly the reference ones; flex
   weight follows a well-formed `flex-weight`; every background entry, and padding
   on a group, adds one after hook; visibility and layout mode are set by the last
   entry in iteration order that asks for them; nothing else changes.
   */
  function ApplyPlainStyles(el: Element, styles: Styles, order: seq<string>): (r: Element)
    requires Enumerates(order, styles)
    ensures r.style == if ResolvedStyle(styles) != EmptyStyle then Some(ResolvedStyle(styles)) else el.style
    ensures r.anchor == if ResolvedAnchor(styles) != EmptyAnchor then Some(ResolvedAnchor(styles)) else el.anchor
    ensures r.flexWeight == FlexOf(styles, el.flexWeight)
    ensures el.after <= r.after && multiset(r.after) == multiset(el.after) + HookBag(styles, el.kind)
    ensures Within(order, styles)
    ensures SettledBy(VisibilityRequests(styles, order), el.visible, r.visible)
    ensures el.kind == Group ==> SettledSomeBy(LayoutRequests(styles, order), el.layoutMode, r.layoutMode)
    ensures el.kind != Group ==> r.layoutMode == el.layoutMode
    ensures r == el.(style := r.style, anchor := r.anchor, flexWeight := r.flexWeight, after := r.after,
                     visible := r.visible, layoutMode := r.layoutMode)
  {
    SeenAll(styles, order);
    WalkResolves(el, styles, order);
    WalkVisibility(el, styles, order);
    WalkLayout(el, styles, order);
    Finish(ApplyEntries(Start(el), styles, order))
  }

  /**
   `applyStyles`: a button takes the button path, anything else the plain one. Either
   way the element's identity, value, listeners and children are untouched and the
   flex weight follows a well-formed `flex-weight`.
   */
  function ApplyStyles(el: Element, styles: Styles, order: seq<string>): (r: Element)
    requires Enumerates(order, styles)
    ensures r.kind == el.kind && r.userId == el.userId && r.effectiveId == el.effectiveId
    ensures r.initialValue == el.initialValue && r.usesRef == el.usesRef
    ensures r.listeners == el.listeners && r.children == el.children
    ensures r.flexWeight == FlexOf(styles, el.flexWeight)
    ensures el.kind == Button ==>
      && r.style == el.style && r.visible == el.visible && r.layoutMode == el.layoutMode
      && r.anchor == if ButtonStyles.ButtonAnchor(styles) != EmptyAnchor then Some(ButtonStyles.ButtonAnchor(styles)) else el.anchor
    ensures el.kind != Button ==>
      && r.before == el.before
      && r.anchor == if ResolvedAnchor(styles) != EmptyAnchor then Some(ResolvedAnchor(styles)) else el.anchor
    ensures el.kind == Button ==> r == ButtonStyles.ApplyButtonStyles(el, styles, order)
    ensures el.kind != Button ==> r == ApplyPlainStyles(el, styles, order)
  {
    if el.kind == Button then ButtonStyles.ApplyButtonStyles(el, styles, order)
    else ApplyPlainStyles(el, styles, order)
  }

  /** The element's HTML attributes, by name. */
  type Attributes = map<string, string>

  /** The parsed `style` attribute, empty when there is none. */
  function StyleOf(attrs: Attributes): Styles {
    if "style" in attrs then ParseStyleAttribute(attrs["style"]) else map[]
  }

  /** The flex weight after `data-hyui-flexweight`: its value when it parses, otherwise `current`. */
  function AttributeFlex(attrs: Attributes, current: Option<int>): Option<int> {
    match IntAt(attrs, "data-hyui-flexweight")
    case Some(n) => Some(n)
    case None => current
  }

  /**
   `applyCommonAttributes`: `id` sets the user id, a well-formed `data-hyui-flexweight`
   sets the flex weight, and a `style` attribute is parsed and applied, in that order,
   so a flex weight in the style overrides the attribute's. `order` is the iteration
   order of the parsed style map.
   */
  function ApplyCommonAttributes(el: Element, attrs: Attributes, order: seq<string>): (r: Element)
    requires Enumerates(order, StyleOf(attrs))
    ensures r.userId == if "id" in attrs then Some(attrs["id"]) else el.userId
    ensures r.flexWeight == FlexOf(StyleOf(attrs), AttributeFlex(attrs, el.flexWeight))
    ensures r.kind == el.kind && r.effectiveId == el.effectiveId && r.children == el.children
    ensures r.listeners == el.listeners && r.initialValue == el.initialValue && r.usesRef == el.usesRef
    ensures "style" !in attrs ==> r == el.(userId := r.userId, flexWeight := r.flexWeight)
    ensures "style" in attrs ==>
      r == ApplyStyles(el.(userId := r.userId, flexWeight := AttributeFlex(attrs, el.flexWeight)), StyleOf(attrs), order)
  {
    var named := if "id" in attrs then el.(userId := Some(attrs["id"])) else el;
    var weighted :=
      match IntAt(attrs, "data-hyui-flexweight")
      case Some(n) => named.(flexWeight := Some(n))
      case None => named;
    if "style" in attrs then ApplyStyles(weighted, ParseStyleAttribute(attrs["style"]), order)
    else weighted
  }

  /** A flex weight in the style wins over the `data-hyui-flexweight` attribute. */
  lemma StyleFlexWins(el: Element, attrs: Attributes, order: seq<string>, n: int)
    requires Enumerates(order, StyleOf(attrs))
    requires IntAt(StyleOf(attrs), "flex-weight") == Some(n)
    ensures ApplyCommonAttributes(el, attrs, order).flexWeight == Some(n)
  {
  }

  /**
   On an element that is not a button, a `style` attribute's parsed map decides
   style, anchor, after hooks and visibility exactly as the plain path resolves them.
   (Without the attribute, `ApplyCommonAttributes` changes only the id and flex weight.)
   */
  lemma StyleAttributeOnPlain(el: Element, attrs: Attributes, order: seq<string>)
    requires Enumerates(order, StyleOf(attrs)) && el.kind != Button && "style" in attrs
    ensures Within(order, StyleOf(attrs))
    ensures var r, m := ApplyCommonAttributes(el, attrs, order), StyleOf(attrs);
      && r.style == (if ResolvedStyle(m) != EmptyStyle then Some(ResolvedStyle(m)) else el.style)
      && r.anchor == (if ResolvedAnchor(m) != EmptyAnchor then Some(ResolvedAnchor(m)) else el.anchor)
      && multiset(r.after) == multiset(el.after) + HookBag(m, el.kind)
      && SettledBy(VisibilityRequests(m, order), el.visible, r.visible)
  {
    var m := StyleOf(attrs);
    SeenAll(m, order);
    var r := ApplyCommonAttributes(el, attrs, order);
    var w := el.(userId := r.userId, flexWeight := AttributeFlex(attrs, el.flexWeight));
    assert r == ApplyPlainStyles(w, m, order);
  }

  /**
   On a button, a `style` attribute sets the lenient anchor and hoists a generated
   style exactly when its default bucket is non-empty; the button's style, visibility
   and layout mode are left alone.
   */
  lemma StyleAttributeOnButton(el: Element, attrs: Attributes, order: seq<string>)
    requires Enumerates(order, StyleOf(attrs)) && el.kind == Button && "style" in attrs
    ensures var r, m := ApplyCommonAttributes(el, attrs, order), StyleOf(attrs);
      && r.style == el.style && r.visible == el.visible && r.layoutMode == el.layoutMode
      && r.anchor == (if ButtonStyles.ButtonAnchor(m) != EmptyAnchor then Some(ButtonStyles.ButtonAnchor(m)) else el.anchor)
      && (ButtonStyles.DefaultBucket(m) == map[] <==> r.before == el.before)
  {
    var m := StyleOf(attrs);
    var r := ApplyCommonAttributes(el, attrs, order);
    var w := el.(userId := r.userId, flexWeight := AttributeFlex(attrs, el.flexWeight));
    assert r == ButtonStyles.ApplyButtonStyles(w, m, order);
    assert ButtonStyles.DefaultBucket(m) != map[] ==> |r.before| == |el.before| + 1;
  }

  // What the walk does with particular keys.

  /** The walk over `order` reads only the entries it lists. */
  lemma {:induction false} WalkReadsOnlyOrder(p: Pending, styles: Styles, styles': Styles, order: seq<string>)
    requires Within(order, styles) && Within(order, styles')
    requires forall i :: 0 <= i < |order| ==> styles[order[i]] == styles'[order[i]]
    ensures ApplyEntries(p, styles, order) == ApplyEntries(p, styles', order)
    decreases |order|
  {
    if order != [] {
      WalkReadsOnlyOrder(p, styles, styles', order[..|order| - 1]);
    }
  }

  /** The pseudo-state case leaves the walk's state as it is. */
  lemma PseudoCaseIdle(p: Pending, k: string, v: string)
    requires IsPseudoKey(k)
    ensures ApplyEntry(p, k, v) == p
  {
    assert Classify(k) == Pseudo;
  }

  /** The walk over a non-empty order ends with the entry of its last key. */
  lemma WalkSnoc(p: Pending, styles: Styles, order: seq<string>)
    requires Within(order, styles) && order != []
    ensures var k := order[|order| - 1];
      ApplyEntries(p, styles, order) == ApplyEntry(ApplyEntries(p, styles, order[..|order| - 1]), k, styles[k])
  {
  }

  /** Walking `a + b` is walking `a`, then walking `b` from where `a` left off. */
  lemma {:induction false} WalkAppend(p: Pending, styles: Styles, a: seq<string>, b: seq<string>)
    requires Within(a, styles) && Within(b, styles)
    ensures Within(a + b, styles)
    ensures ApplyEntries(p, styles, a + b) == ApplyEntries(ApplyEntries(p, styles, a), styles, b)
    decreases |b|
  {
    var ab := a + b;
    assert Within(ab, styles) by {
      forall j | 0 <= j < |ab| ensures ab[j] in styles {
        if j < |a| { assert ab[j] == a[j]; } else { assert ab[j] == b[j - |a|]; }
      }
    }
    if b == [] {
      assert ab == a;
    } else {
      var b', k := b[..|b| - 1], b[|b| - 1];
      assert Within(b', styles);
      var pre := ab[..|ab| - 1];
      assert pre == a + b' && ab[|ab| - 1] == k;
      WalkAppend(p, styles, a, b');
      var q := ApplyEntries(p, styles, a);
      assert ApplyEntries(p, styles, pre) == ApplyEntries(q, styles, b');
      WalkSnoc(p, styles, ab);
      WalkSnoc(q, styles, b);
    }
  }

  /** The walk passes over a pseudo-state entry inserted anywhere without a trace. */
  lemma PseudoEntryIdle(p: Pending, styles: Styles, order: seq<string>, k: string, v: string, i: int)
    requires Within(order, styles) && k !in styles && IsPseudoKey(k) && 0 <= i <= |order|
    ensures Within(order[..i] + [k] + order[i..], styles[k := v])
    ensures ApplyEntries(p, styles[k := v], order[..i] + [k] + order[i..]) == ApplyEntries(p, styles, order)
  {
    var styles', a, b := styles[k := v], order[..i], order[i..];
    assert order == a + b;
    assert Within(a, styles') && Within([k], styles') && Within(b, styles');
    var q := ApplyEntries(p, styles', a);
    assert ApplyEntries(q, styles', [k]) == q by {
      WalkSnoc(q, styles', [k]);
      assert [k][..0] == [];
      PseudoCaseIdle(q, k, v);
    }
    WalkAppend(p, styles', a, [k]);
    WalkAppend(p, styles', a + [k], b);
    WalkAppend(p, styles', a, b);
    WalkReadsOnlyOrder(p, styles', styles, order);
  }

  /**
   A pseudo-state entry, wherever the iteration reaches it, changes nothing on an
   element that is not a button.
   */
  lemma PseudoKeyIgnored(el: Element, styles: Styles, order: seq<string>, k: string, v: string, i: int)
    requires Enumerates(order, styles) && k !in styles && IsPseudoKey(k) && 0 <= i <= |order|
    ensures Enumerates(order[..i] + [k] + order[i..], styles[k := v])
    ensures ApplyPlainStyles(el, styles[k := v], order[..i] + [k] + order[i..]) == ApplyPlainStyles(el, styles, order)
  {
    EnumeratesInsert(order, styles, k, v, i);
    SeenAll(styles, order);
    PseudoEntryIdle(Start(el), styles, order, k, v, i);
  }


  /** What `visibility` or `display` with value `v` asks of visibility, by the word it holds. */
  function VisibilityWord(key: string, v: string): Option<bool> {
    if key == "visibility" then
      if MatchesWord(v, "hidden") then Some(false) else if MatchesWord(v, "shown") then Some(true) else None
    else
      if MatchesWord(v, "none") then Some(false) else if MatchesWord(v, "block") then Some(true) else None
  }

  /** Only the `visibility` and `display` entries make visibility requests. */
  lemma VisibilityRequesters(styles: Styles, order: seq<string>)
    requires Within(order, styles)
    ensures var vs := VisibilityRequests(styles, order);
      forall j :: 0 <= j < |vs| && vs[j].Some? ==> order[j] == "visibility" || order[j] == "display"
  {
    var vs := VisibilityRequests(styles, order);
    forall j | 0 <= j < |vs| && vs[j].Some? ensures order[j] == "visibility" || order[j] == "display" {
      ClassifyNames(order[j]);
    }
  }

  /** The request of the `visibility` or `display` entry is the word it holds. */
  lemma VisibilityRequestOf(styles: Styles, order: seq<string>, i: int)
    requires Within(order, styles) && 0 <= i < |order|
    requires order[i] == "visibility" || order[i] == "display"
    ensures VisibilityRequests(styles, order)[i] == VisibilityWord(order[i], styles[order[i]])
  {
    ClassifyNames(order[i]);
  }

  /**
   With at most one of `visibility` and `display` in the map, the iteration order does
   not matter: that key alone decides, and with neither the element keeps its visibility.
   */
  lemma VisibilityWithoutConflict(el: Element, styles: Styles, order: seq<string>)
    requires Enumerates(order, styles) && el.kind != Button
    requires !("visibility" in styles && "display" in styles)
    ensures var r := ApplyPlainStyles(el, styles, order);
      && ("visibility" in styles ==> r.visible == VisibilityWord("visibility", styles["visibility"]).GetOr(el.visible))
      && ("display" in styles ==> r.visible == VisibilityWord("display", styles["display"]).GetOr(el.visible))
      && ("visibility" !in styles && "display" !in styles ==> r.visible == el.visible)
  {
    var r := ApplyPlainStyles(el, styles, order);
    var vs := VisibilityRequests(styles, order);
    VisibilityRequesters(styles, order);
    if "visibility" in styles || "display" in styles {
      var key := if "visibility" in styles then "visibility" else "display";
      var i := PositionOf(styles, order, key);
      OnlyPosition(styles, order, i, "visibility", "display");
      VisibilityRequestOf(styles, order, i);
      SettledByOnly(vs, el.visible, r.visible, i);
    } else {
      assert forall j :: 0 <= j < |order| ==> order[j] in styles;
    }
  }

  /** In a distinct listing of the map, a key of the map other than `order[i]` is absent from `order`, and so is any key not in the map. */
  lemma OnlyPosition(styles: Styles, order: seq<string>, i: int, a: string, b: string)
    requires Enumerates(order, styles) && 0 <= i < |order|
    requires order[i] == a || order[i] == b
    requires !(a in styles && b in styles)
    ensures forall j :: 0 <= j < |order| && j != i ==> order[j] != a && order[j] != b
  {
    forall j | 0 <= j < |order| && j != i ensures order[j] != a && order[j] != b {
      assert order[j] in styles && order[i] in styles;
    }
  }

  /** On a group with exactly one of the three layout keys, that key sets the capitalized layout mode. */
  lemma LayoutWithoutConflict(el: Element, styles: Styles, order: seq<string>, key: string)
    requires Enumerates(order, styles) && el.kind == Group
    requires key == "text-align" || key == "layout-mode" || key == "layout"
    requires key in styles
    requires forall k :: k in styles && (k == "text-align" || k == "layout-mode" || k == "layout") ==> k == key
    ensures ApplyPlainStyles(el, styles, order).layoutMode == Some(Capitalize(styles[key]))
  {
    var r := ApplyPlainStyles(el, styles, order);
    var ls := LayoutRequests(styles, order);
    var i := PositionOf(styles, order, key);
    forall j | 0 <= j < |ls| && j != i ensures ls[j].None? {
      ClassifyNames(order[j]);
      assert order[j] in styles;
    }
    ClassifyNames(key);
    SettledSomeByOnly(ls, el.layoutMode, r.layoutMode, i);
  }

  /** The button path reads "<n>px" on an anchor edge as `n`. */
  lemma ButtonUnitAnchor(n: int)
    requires IsInt32(n)
    ensures ButtonStyles.ButtonAnchor(map["anchor-left" := IntToString(n) + "px"]) == EmptyAnchor.(left := Some(n))
  {
    LenientIgnoresUnit(n, "px");
    PrefixSplit("anchor-", "anchor-left");
    assert "anchor-left"[7..] == "left";
  }

  /** The plain path rejects "<n>px" on an anchor edge, so no anchor field resolves. */
  lemma PlainUnitAnchor(n: int)
    ensures ResolvedAnchor(map["anchor-left" := IntToString(n) + "px"]) == EmptyAnchor
  {
    StrictRejectsUnit(n, "px");
  }

  /** A unit suffix such as "px" on an anchor edge is read on a button and rejected everywhere else. */
  lemma UnitAnchorOnlyOnButtons(el: Element, n: int)
    requires IsInt32(n)
    ensures var styles := map["anchor-left" := IntToString(n) + "px"];
      && ApplyStyles(el.(kind := Button), styles, ["anchor-left"]).anchor == Some(EmptyAnchor.(left := Some(n)))
      && (el.kind != Button ==> ApplyStyles(el, styles, ["anchor-left"]).anchor == el.anchor)
  {
    ButtonUnitAnchor(n);
    PlainUnitAnchor(n);
  }
}
