/**
 ButtonStyleGenerator: turns four per-state property maps into one
 `TextButtonStyle(...)` DSL literal. States appear in the fixed order Default,
 Hovered, Pressed, Disabled; inside a state the background comes first, then a
 nested `LabelStyle` holding TextColor, FontSize, RenderBold, RenderUppercase.
 */
module ButtonStyleGenerator {
  import opened Wrappers
  import opened Strings

  type StyleMap = map<string, string>

  /** A property that `getCssValue` passes over: absent or empty. */
  predicate Missing(css: StyleMap, key: string) {
    key !in css || css[key] == ""
  }

  /** `keys[i]` is the first key in the list whose value is present and non-empty. */
  predicate FirstPresent(css: StyleMap, keys: seq<string>, i: int) {
    && 0 <= i < |keys|
    && !Missing(css, keys[i])
    && forall j :: 0 <= j < i ==> Missing(css, keys[j])
  }

  /** `getCssValue(cssProps, keys...)`: the value of the first listed key that is non-null and non-empty. */
  function GetCssValue(css: StyleMap, keys: seq<string>): (r: Option<string>)
    ensures r.None? <==> forall i :: 0 <= i < |keys| ==> Missing(css, keys[i])
    ensures r.Some? ==> exists i :: FirstPresent(css, keys, i) && r.value == css[keys[i]]
  {
    if keys == [] then None
    else if !Missing(css, keys[0]) then
      assert FirstPresent(css, keys, 0);
      Some(css[keys[0]])
    else
      var r := GetCssValue(css, keys[1..]);
      assert forall i :: 1 <= i < |keys| ==> keys[i] == keys[1..][i - 1];
      if r.Some? then
        var i :| FirstPresent(css, keys[1..], i) && r.value == css[keys[1..][i]];
        assert FirstPresent(css, keys, i + 1);
        r
      else r
  }

  /** `background` wins over `background-color`; the latter is used only when the former is missing or empty. */
  lemma BackgroundPrecedence(css: StyleMap)
    ensures !Missing(css, "background") ==> GetCssValue(css, ["background", "background-color"]) == Some(css["background"])
    ensures Missing(css, "background") ==> GetCssValue(css, ["background", "background-color"]) == GetCssValue(css, ["background-color"])
  {
    var keys := ["background", "background-color"];
    assert keys[1..] == ["background-color"];
  }

  predicate IsDigitOrDot(c: char) {
    '0' <= c <= '9' || c == '.'
  }

  /** `font-weight` requests bold, compared case-insensitively. */
  predicate WantsBold(css: StyleMap) {
    var w := GetCssValue(css, ["font-weight"]);
    w.Some? && MatchesWord(w.value, "bold")
  }

  /** `text-transform` requests upper case, compared case-insensitively. */
  predicate WantsUppercase(css: StyleMap) {
    var t := GetCssValue(css, ["text-transform"]);
    t.Some? && MatchesWord(t.value, "uppercase")
  }

  /** The LabelStyle fields a state resolves, in their fixed order. */
  function LabelFields(css: StyleMap): seq<string> {
    var color := GetCssValue(css, ["color"]);
    var fontSize := GetCssValue(css, ["font-size"]);
    (if color.Some? then ["TextColor: " + color.value] else [])
    + (if fontSize.Some? then ["FontSize: " + Keep(fontSize.value, IsDigitOrDot)] else [])
    + (if WantsBold(css) then ["RenderBold: true"] else [])
    + (if WantsUppercase(css) then ["RenderUppercase: true"] else [])
  }

  /** The fields of one state: Background first, then LabelStyle when it has any field. */
  function StateFields(css: StyleMap): seq<string> {
    var background := GetCssValue(css, ["background", "background-color"]);
    var labelText := LabelFields(css);
    (if background.Some? then ["Background: " + background.value] else [])
    + (if labelText != [] then ["LabelStyle: (" + JoinWith(labelText, ", ") + ")"] else [])
  }

  /** The keys a state's properties are read from. */
  predicate ReadsKey(k: string) {
    k == "background" || k == "background-color" || k == "color"
    || k == "font-size" || k == "font-weight" || k == "text-transform"
  }

  /** A state whose map holds none of the keys read resolves no field. */
  lemma UnreadStateEmpty(css: StyleMap)
    requires forall k :: k in css ==> !ReadsKey(k)
    ensures StateFields(css) == []
  {
    assert !("background" in css) && !("background-color" in css) && !("color" in css);
    assert !("font-size" in css) && !("font-weight" in css) && !("text-transform" in css);
  }

  /** A default state that resolves no field still yields a literal, with an empty Default section. */
  lemma UnreadDefaultLiteral(css: StyleMap)
    requires css != map[] && forall k :: k in css ==> !ReadsKey(k)
    ensures GenerateTextButtonStyleDsl(Some(css), None, None, None) == Some("TextButtonStyle(Default: ())")
  {
    UnreadStateEmpty(css);
    assert Section("Default", css) == "Default: ()";
    assert Sections(css, None, None, None) == ["Default: ()"];
    assert JoinWith(["Default: ()"], ", ") == "Default: ()";
    assert "TextButtonStyle(" + "Default: ()" + ")" == "TextButtonStyle(Default: ())";
  }

  /** A field the builder may append: whether it resolved, and its text. */
  datatype Field = Field(present: bool, text: string)

  /** The texts of the fields that resolved, in order. */
  function Selected(fields: seq<Field>): seq<string> {
    if fields == [] then []
    else (if fields[0].present then [fields[0].text] else []) + Selected(fields[1..])
  }

  /**
   The source's repeated builder step: for each resolved field, append ", " when
   something was appended before, then the field. Returns the text and whether
   anything has been appended.
   */
  function AppendFields(text: string, has: bool, fields: seq<Field>): (string, bool)
    decreases |fields|
  {
    if fields == [] then (text, has)
    else if fields[0].present then AppendFields(text + (if has then ", " else "") + fields[0].text, true, fields[1..])
    else AppendFields(text, has, fields[1..])
  }

  /** One builder step on an already joined prefix extends the join by one piece. */
  lemma AppendStep(prefix: string, done: seq<string>, t: string)
    ensures prefix + JoinWith(done, ", ") + (if done != [] then ", " else "") + t == prefix + JoinWith(done + [t], ", ")
  {
    JoinSnoc(done, t, ", ");
    if done == [] {
      assert prefix + JoinWith(done, ", ") + "" + t == prefix + t;
    }
  }

  /** The builder steps put ", " exactly between the resolved fields. */
  lemma {:induction false} AppendFieldsJoins(prefix: string, done: seq<string>, fields: seq<Field>)
    ensures AppendFields(prefix + JoinWith(done, ", "), done != [], fields)
      == (prefix + JoinWith(done + Selected(fields), ", "), done + Selected(fields) != [])
    decreases |fields|
  {
    if fields == [] {
      assert done + [] == done;
    } else {
      var f := fields[0];
      if f.present {
        AppendStep(prefix, done, f.text);
        AppendFieldsJoins(prefix, done + [f.text], fields[1..]);
        assert Selected(fields) == [f.text] + Selected(fields[1..]);
        assert done + [f.text] + Selected(fields[1..]) == done + Selected(fields);
      } else {
        AppendFieldsJoins(prefix, done, fields[1..]);
        assert Selected(fields) == Selected(fields[1..]);
      }
    }
  }

  /** From an empty builder the steps produce exactly the join of the resolved fields. */
  lemma AppendFieldsFromEmpty(fields: seq<Field>)
    ensures AppendFields("", false, fields) == (JoinWith(Selected(fields), ", "), Selected(fields) != [])
  {
    var done: seq<string> := [];
    assert "" + JoinWith(done, ", ") == "";
    AppendFieldsJoins("", done, fields);
    assert done + Selected(fields) == Selected(fields);
    assert "" + JoinWith(Selected(fields), ", ") == JoinWith(Selected(fields), ", ");
  }

  /** The four LabelStyle candidates in the order the source tries them. */
  function LabelItems(css: StyleMap): seq<Field> {
    var color := GetCssValue(css, ["color"]);
    var fontSize := GetCssValue(css, ["font-size"]);
    [ Field(color.Some?, "TextColor: " + color.GetOr("")),
      Field(fontSize.Some?, "FontSize: " + Keep(fontSize.GetOr(""), IsDigitOrDot)),
      Field(WantsBold(css), "RenderBold: true"),
      Field(WantsUppercase(css), "RenderUppercase: true") ]
  }

  /** The text a single field contributes. */
  function Pick(f: Field): seq<string> {
    if f.present then [f.text] else []
  }

  lemma SelectedTwo(a: Field, b: Field)
    ensures Selected([a, b]) == Pick(a) + Pick(b)
  {
    assert [a, b][1..] == [b];
    assert [b][1..] == [];
    assert Selected([b]) == Pick(b) + Selected([]);
    assert Pick(b) + [] == Pick(b);
  }

  lemma SelectedThree(a: Field, b: Field, c: Field)
    ensures Selected([a, b, c]) == Pick(a) + Pick(b) + Pick(c)
  {
    assert [a, b, c][1..] == [b, c];
    SelectedTwo(b, c);
  }

  lemma SelectedFour(a: Field, b: Field, c: Field, d: Field)
    ensures Selected([a, b, c, d]) == Pick(a) + Pick(b) + Pick(c) + Pick(d)
  {
    assert [a, b, c, d][1..] == [b, c, d];
    SelectedThree(b, c, d);
  }

  lemma LabelItemsSelected(css: StyleMap)
    ensures Selected(LabelItems(css)) == LabelFields(css)
  {
    var items := LabelItems(css);
    SelectedFour(items[0], items[1], items[2], items[3]);
    assert items == [items[0], items[1], items[2], items[3]];
  }

  /** The two top-level fields of a state: Background, then the nested LabelStyle. */
  function StateItems(css: StyleMap): seq<Field> {
    var background := GetCssValue(css, ["background", "background-color"]);
    var labelResult := AppendFields("", false, LabelItems(css));
    [ Field(background.Some?, "Background: " + background.GetOr("")),
      Field(labelResult.1, "LabelStyle: (" + labelResult.0 + ")") ]
  }

  lemma StateItemsSelected(css: StyleMap)
    ensures Selected(StateItems(css)) == StateFields(css)
  {
    var items := StateItems(css);
    AppendFieldsFromEmpty(LabelItems(css));
    LabelItemsSelected(css);
    SelectedTwo(items[0], items[1]);
    assert items == [items[0], items[1]];
  }

  /** `appendButtonStateProperties`: appends the properties of one state to `dsl`. */
  function AppendButtonStateProperties(dsl: string, css: StyleMap): (r: string)
    ensures r == dsl + JoinWith(StateFields(css), ", ")
  {
    AppendFieldsFromEmpty(StateItems(css));
    StateItemsSelected(css);
    dsl + AppendFields("", false, StateItems(css)).0
  }

  /** A state map is passed on only when non-null and non-empty. */
  predicate Present(css: Option<StyleMap>) {
    css.Some? && css.value != map[]
  }

  /** One state section as it appears in the literal. */
  function Section(name: string, css: StyleMap): string {
    name + ": (" + JoinWith(StateFields(css), ", ") + ")"
  }

  /** The sections of the literal: Default always, the others when present, in the fixed order. */
  function Sections(default: StyleMap, hover: Option<StyleMap>, pressed: Option<StyleMap>, disabled: Option<StyleMap>): seq<string> {
    [Section("Default", default)]
    + (if Present(hover) then [Section("Hovered", hover.value)] else [])
    + (if Present(pressed) then [Section("Pressed", pressed.value)] else [])
    + (if Present(disabled) then [Section("Disabled", disabled.value)] else [])
  }

  /** The block the source appends for one state: its name, its properties, ")". */
  function StateBlock(name: string, css: StyleMap): (r: string)
    ensures r == Section(name, css)
  {
    AppendButtonStateProperties(name + ": (", css) + ")"
  }

  /** The optional Hovered, Pressed and Disabled blocks in their fixed order. */
  function OptionalStates(hover: Option<StyleMap>, pressed: Option<StyleMap>, disabled: Option<StyleMap>): seq<Field> {
    [ Field(Present(hover), StateBlock("Hovered", hover.GetOr(map[]))),
      Field(Present(pressed), StateBlock("Pressed", pressed.GetOr(map[]))),
      Field(Present(disabled), StateBlock("Disabled", disabled.GetOr(map[]))) ]
  }

  /** One optional block contributes its section exactly when its state is present. */
  lemma PickOptional(name: string, css: Option<StyleMap>)
    ensures Pick(Field(Present(css), StateBlock(name, css.GetOr(map[])))) ==
      if Present(css) then [Section(name, css.value)] else []
  {
  }

  /** The sections list, split into the Default section and the three optional parts. */
  lemma SectionsSplit(default: StyleMap, hover: Option<StyleMap>, pressed: Option<StyleMap>, disabled: Option<StyleMap>,
                      a: seq<string>, b: seq<string>, c: seq<string>)
    requires a == if Present(hover) then [Section("Hovered", hover.value)] else []
    requires b == if Present(pressed) then [Section("Pressed", pressed.value)] else []
    requires c == if Present(disabled) then [Section("Disabled", disabled.value)] else []
    ensures Sections(default, hover, pressed, disabled) == [Section("Default", default)] + (a + b + c)
  {
    var d := [Section("Default", default)];
    assert Sections(default, hover, pressed, disabled) == d + a + b + c;
    ConcatAssoc(d, a, b, c);
  }

  lemma ConcatAssoc<T>(d: seq<T>, a: seq<T>, b: seq<T>, c: seq<T>)
    ensures d + a + b + c == d + (a + b + c)
  {
  }

  lemma OptionalStatesSelected(default: StyleMap, hover: Option<StyleMap>, pressed: Option<StyleMap>, disabled: Option<StyleMap>)
    ensures [Section("Default", default)] + Selected(OptionalStates(hover, pressed, disabled)) == Sections(default, hover, pressed, disabled)
  {
    var x := Field(Present(hover), StateBlock("Hovered", hover.GetOr(map[])));
    var y := Field(Present(pressed), StateBlock("Pressed", pressed.GetOr(map[])));
    var z := Field(Present(disabled), StateBlock("Disabled", disabled.GetOr(map[])));
    assert OptionalStates(hover, pressed, disabled) == [x, y, z];
    SelectedThree(x, y, z);
    PickOptional("Hovered", hover);
    PickOptional("Pressed", pressed);
    PickOptional("Disabled", disabled);
    SectionsSplit(default, hover, pressed, disabled, Pick(x), Pick(y), Pick(z));
  }

  /** `generateTextButtonStyleDsl`: null unless the default state has properties. */
  function GenerateTextButtonStyleDsl(
    default: Option<StyleMap>, hover: Option<StyleMap>,
    pressed: Option<StyleMap>, disabled: Option<StyleMap>): (r: Option<string>)
    ensures r.Some? <==> Present(default)
    ensures r.Some? ==> r.value == "TextButtonStyle(" + JoinWith(Sections(default.value, hover, pressed, disabled), ", ") + ")"
  {
    if default.None? || default.value == map[] then None
    else
      var head := "TextButtonStyle(";
      var first := StateBlock("Default", default.value);
      var built := AppendFields(head + first, true, OptionalStates(hover, pressed, disabled));
      SectionsJoined(head, default.value, hover, pressed, disabled);
      if built.1 then Some(built.0 + ")") else None
  }

  /** After the Default block, the optional blocks build exactly the joined Sections. */
  lemma SectionsJoined(head: string, default: StyleMap, hover: Option<StyleMap>, pressed: Option<StyleMap>, disabled: Option<StyleMap>)
    ensures AppendFields(head + StateBlock("Default", default), true, OptionalStates(hover, pressed, disabled))
      == (head + JoinWith(Sections(default, hover, pressed, disabled), ", "), true)
  {
    var done := [Section("Default", default)];
    assert JoinWith(done, ", ") == Section("Default", default);
    AppendFieldsJoins(head, done, OptionalStates(hover, pressed, disabled));
    OptionalStatesSelected(default, hover, pressed, disabled);
  }

  /** The literal always opens with the Default section and closes with ")". */
  lemma GeneratedShape(default: Option<StyleMap>, hover: Option<StyleMap>, pressed: Option<StyleMap>, disabled: Option<StyleMap>)
    requires Present(default)
    ensures var r := GenerateTextButtonStyleDsl(default, hover, pressed, disabled);
      && r.Some?
      && "TextButtonStyle(Default: (" <= r.value
      && r.value[|r.value| - 1] == ')'
  {
    var sections := Sections(default.value, hover, pressed, disabled);
    JoinStartsWithFirst(sections, ", ");
    var body := JoinWith(sections, ", ");
    assert "Default: (" <= sections[0];
    PrefixWrapped("TextButtonStyle(", "Default: (", body, ")");
    assert "TextButtonStyle(Default: (" == "TextButtonStyle(" + "Default: (";
  }

  /** With no default properties there is no literal, whatever the other states hold. */
  lemma NoDefaultNoStyle(hover: Option<StyleMap>, pressed: Option<StyleMap>, disabled: Option<StyleMap>)
    ensures GenerateTextButtonStyleDsl(None, hover, pressed, disabled) == None
    ensures GenerateTextButtonStyleDsl(Some(map[]), hover, pressed, disabled) == None
  {
  }

  /** Changing only the Hovered, Pressed or Disabled maps never changes the Default section. */
  lemma DefaultSectionIsolated(default: Option<StyleMap>, hover: Option<StyleMap>, pressed: Option<StyleMap>, disabled: Option<StyleMap>,
                               hover': Option<StyleMap>, pressed': Option<StyleMap>, disabled': Option<StyleMap>)
    requires Present(default)
    ensures var prefix := "TextButtonStyle(" + Section("Default", default.value);
      && prefix <= GenerateTextButtonStyleDsl(default, hover, pressed, disabled).value
      && prefix <= GenerateTextButtonStyleDsl(default, hover', pressed', disabled').value
  {
    var a := Sections(default.value, hover, pressed, disabled);
    var b := Sections(default.value, hover', pressed', disabled');
    JoinStartsWithFirst(a, ", ");
    JoinStartsWithFirst(b, ", ");
    PrefixWrapped("TextButtonStyle(", a[0], JoinWith(a, ", "), ")");
    PrefixWrapped("TextButtonStyle(", b[0], JoinWith(b, ", "), ")");
  }

  lemma PrefixWrapped(head: string, x: string, y: string, tail: string)
    requires x <= y
    ensures head + x <= head + y + tail
  {
    assert (head + y + tail)[..|head + x|] == head + x;
  }
}
