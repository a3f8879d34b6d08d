/**
 The command builder (UICommandBuilder) as the list of commands it accumulates, and
 what each hook registered by the tag handler appends to it when run against the
 element's selector.
 */
module Commands {
  import opened Wrappers
  import opened Strings
  import opened Elements

  /** append(file), appendInline(scope, text), set(path, value). */
  datatype Command =
    | Append(file: string)
    | AppendInline(scope: string, text: string)
    | Set(path: string, value: string)

  /** The exception `substring(0, -1)` throws when the selector holds no space. */
  datatype HookError = IndexOutOfBounds

  /** Padding edges in the order the DSL literal names them. */
  datatype Edges = Edges(left: string, top: string, right: string, bottom: string)

  /** The DSL padding literal for a set of edges. */
  function PaddingLiteral(e: Edges): string {
    "(Left: " + e.left + ", Top: " + e.top + ", Right: " + e.right + ", Bottom: " + e.bottom + ")"
  }

  /**
   The CSS shorthand rule for padding: one value for every edge; two values for
   vertical then horizontal; four values clockwise from the top. Other counts have
   no meaning.
   */
  function Shorthand(ts: seq<string>): Option<Edges> {
    if |ts| == 1 then Some(Edges(left := ts[0], top := ts[0], right := ts[0], bottom := ts[0]))
    else if |ts| == 2 then Some(Edges(left := ts[1], top := ts[0], right := ts[1], bottom := ts[0]))
    else if |ts| == 4 then Some(Edges(left := ts[3], top := ts[0], right := ts[1], bottom := ts[2]))
    else None
  }

  /** The padding hook: splits the value on whitespace and sets `<selector>.Padding`. */
  function PaddingCommands(selector: string, padding: string): (r: seq<Command>)
    ensures |r| <= 1
    ensures var ts := SplitTrimmedWhitespace(padding);
      r == match Shorthand(ts)
           case Some(e) => [Set(selector + ".Padding", PaddingLiteral(e))]
           case None => []
  {
    var parts := SplitTrimmedWhitespace(padding);
    var path := selector + ".Padding";
    if |parts| == 1 then
      [Set(path, "(Left: " + parts[0] + ", Top: " + parts[0] + ", Right: " + parts[0] + ", Bottom: " + parts[0] + ")")]
    else if |parts| == 2 then
      [Set(path, "(Left: " + parts[1] + ", Top: " + parts[0] + ", Right: " + parts[1] + ", Bottom: " + parts[0] + ")")]
    else if |parts| == 4 then
      [Set(path, "(Left: " + parts[3] + ", Top: " + parts[0] + ", Right: " + parts[1] + ", Bottom: " + parts[2] + ")")]
    else
      []
  }

  /** A token the padding value may carry: non-empty, with no blank character. */
  predicate IsWord(t: string) {
    t != [] && forall j :: 0 <= j < |t| ==> !IsBlank(t[j])
  }

  /** A padding value written as words separated by single spaces expands by the shorthand rule. */
  lemma PaddingOfWords(selector: string, ts: seq<string>)
    requires |ts| > 0
    requires forall i :: 0 <= i < |ts| ==> IsWord(ts[i])
    ensures PaddingCommands(selector, JoinWith(ts, " ")) ==
      match Shorthand(ts)
      case Some(e) => [Set(selector + ".Padding", PaddingLiteral(e))]
      case None => []
  {
    var s := JoinWith(ts, " ");
    JoinOfWordsTrimmed(ts);
    TrimPadded([], s, []);
    assert [] + s + [] == s;
    assert Trim(s) == s;
    forall i | 0 <= i < |ts| ensures IsToken(ts[i]) {
      WordIsToken(ts[i]);
    }
    TokensJoin(ts);
    assert Tokens(s) == ts;
    assert SplitTrimmedWhitespace(s) == ts;
  }

  lemma WordIsToken(t: string)
    requires IsWord(t)
    ensures IsToken(t)
  {
    forall j | 0 <= j < |t| ensures !IsSpace(t[j]) {
      assert !IsBlank(t[j]);
    }
  }

  /** A single-space join of words is non-empty and has no blank at either end. */
  lemma {:induction false} JoinOfWordsTrimmed(ts: seq<string>)
    requires |ts| > 0
    requires forall i :: 0 <= i < |ts| ==> IsWord(ts[i])
    ensures JoinWith(ts, " ") != [] && Trimmed(JoinWith(ts, " "))
    decreases |ts|
  {
    var s := JoinWith(ts, " ");
    assert IsWord(ts[0]);
    if |ts| > 1 {
      JoinOfWordsTrimmed(ts[1..]);
      var rest := JoinWith(ts[1..], " ");
      assert s == ts[0] + " " + rest;
      assert s[0] == ts[0][0];
      assert s[|s| - 1] == rest[|rest| - 1];
    } else {
      assert s == ts[0];
    }
  }

  /** Padding with one value sets every edge to it. */
  lemma PaddingOneValue(selector: string)
    ensures PaddingCommands(selector, "10") == [Set(selector + ".Padding", "(Left: 10, Top: 10, Right: 10, Bottom: 10)")]
  {
    PaddingLiteralOne();
    var ts := ["10"];
    assert IsWord(ts[0]);
    PaddingOfWords(selector, ts);
  }

  /** Padding with two values sets top/bottom from the first and left/right from the second. */
  lemma PaddingTwoValues(selector: string)
    ensures PaddingCommands(selector, "10 20") == [Set(selector + ".Padding", "(Left: 20, Top: 10, Right: 20, Bottom: 10)")]
  {
    PaddingLiteralTwo();
    var ts := ["10", "20"];
    assert IsWord(ts[0]) && IsWord(ts[1]);
    assert JoinWith(ts, " ") == "10 20";
    PaddingOfWords(selector, ts);
  }

  /** Padding with four values reads top, right, bottom, left. */
  lemma PaddingFourValues(selector: string)
    ensures PaddingCommands(selector, "10 20 30 40") == [Set(selector + ".Padding", "(Left: 40, Top: 10, Right: 20, Bottom: 30)")]
  {
    PaddingLiteralFour();
    var ts := ["10", "20", "30", "40"];
    assert IsWord(ts[0]) && IsWord(ts[1]) && IsWord(ts[2]) && IsWord(ts[3]);
    assert JoinWith(ts, " ") == "10 20 30 40";
    PaddingOfWords(selector, ts);
  }

  /** Padding with three values emits nothing. */
  lemma PaddingThreeValues(selector: string)
    ensures PaddingCommands(selector, "10 20 30") == []
  {
    var ts := ["10", "20", "30"];
    assert IsWord(ts[0]) && IsWord(ts[1]) && IsWord(ts[2]);
    assert JoinWith(ts, " ") == "10 20 30";
    PaddingOfWords(selector, ts);
  }

  /** A padding literal spelled out. */
  lemma PaddingLiteralOne()
    ensures PaddingLiteral(Edges("10", "10", "10", "10")) == "(Left: 10, Top: 10, Right: 10, Bottom: 10)"
  {
    var a := "(Left: " + "10";
    assert a == "(Left: 10";
    var b := a + ", Top: " + "10";
    assert b == "(Left: 10, Top: 10";
    var c := b + ", Right: " + "10";
    assert c == "(Left: 10, Top: 10, Right: 10";
    var d := c + ", Bottom: " + "10" + ")";
    assert d == "(Left: 10, Top: 10, Right: 10, Bottom: 10)";
  }

  /** A padding literal spelled out. */
  lemma PaddingLiteralTwo()
    ensures PaddingLiteral(Edges("20", "10", "20", "10")) == "(Left: 20, Top: 10, Right: 20, Bottom: 10)"
  {
    var a := "(Left: " + "20";
    assert a == "(Left: 20";
    var b := a + ", Top: " + "10";
    assert b == "(Left: 20, Top: 10";
    var c := b + ", Right: " + "20";
    assert c == "(Left: 20, Top: 10, Right: 20";
    var d := c + ", Bottom: " + "10" + ")";
    assert d == "(Left: 20, Top: 10, Right: 20, Bottom: 10)";
  }

  /** A padding literal spelled out. */
  lemma PaddingLiteralFour()
    ensures PaddingLiteral(Edges("40", "10", "20", "30")) == "(Left: 40, Top: 10, Right: 20, Bottom: 30)"
  {
    var a := "(Left: " + "40";
    assert a == "(Left: 40";
    var b := a + ", Top: " + "10";
    assert b == "(Left: 40, Top: 10";
    var c := b + ", Right: " + "20";
    assert c == "(Left: 40, Top: 10, Right: 20";
    var d := c + ", Bottom: " + "30" + ")";
    assert d == "(Left: 40, Top: 10, Right: 20, Bottom: 30)";
  }

  /** The name of the hoisted button style variable for a selector. */
  function StyleVarName(selector: string, hashDigits: string -> string): string {
    "CustomStyle" + hashDigits(selector)
  }

  /** What running one hook against the element's selector appends to the command builder. */
  function RunHook(h: Hook, selector: string, hashDigits: string -> string): (r: Result<seq<Command>, HookError>)
    ensures r.Failure? <==> h.DefineStyle? && ' ' !in selector
    ensures r.Success? ==> |r.value| <= 1
    ensures h.SetBackground? ==> r == Success([Set(selector + ".Background", h.background)])
  {
    match h
    case SetBackground(v) => Success([Set(selector + ".Background", v)])
    case SetPadding(v) => Success(PaddingCommands(selector, v))
    case DefineStyle(dsl) =>
      var i := LastIndexOf(selector, ' ');
      if i < 0 then Failure(IndexOutOfBounds)
      else Success([AppendInline(selector[..i], "@" + StyleVarName(selector, hashDigits) + " = " + dsl + ";")])
    case UseStyle => Success([Set(selector + ".Style", "$." + StyleVarName(selector, hashDigits))])
  }

  /**
   The two button hooks agree on the variable: the definition lands in the scope before
   the selector's last space and the after hook points `<selector>.Style` at it.
   */
  lemma HoistedStyleShared(selector: string, dsl: string, hashDigits: string -> string)
    requires ' ' in selector
    ensures exists scope, tail, name ::
      && selector == scope + " " + tail
      && ' ' !in tail
      && RunHook(DefineStyle(dsl), selector, hashDigits) == Success([AppendInline(scope, "@" + name + " = " + dsl + ";")])
      && RunHook(UseStyle, selector, hashDigits) == Success([Set(selector + ".Style", "$." + name)])
  {
    var i := LastIndexOf(selector, ' ');
    var scope, tail := selector[..i], selector[i + 1..];
    var name := StyleVarName(selector, hashDigits);
    assert selector[i] == ' ';
    assert selector == scope + " " + tail;
    var define := RunHook(DefineStyle(dsl), selector, hashDigits);
    var use := RunHook(UseStyle, selector, hashDigits);
    assert define == Success([AppendInline(scope, "@" + name + " = " + dsl + ";")]);
    assert use == Success([Set(selector + ".Style", "$." + name)]);
  }
}
