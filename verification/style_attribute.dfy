/**
 The `style` attribute as the tag handler reads it: declarations separated by ';',
 each split at its first ':' into a lower-cased trimmed key and a trimmed value,
 later declarations of a key replacing earlier ones. Also `capitalize`, which the
 handler applies to layout and alignment values, and the iteration order of the
 resulting hash map, which is not specified and so is a parameter wherever it is used.
 */
module StyleAttribute {
  import opened Wrappers
  import opened Strings
  import opened Integers

  type Styles = map<string, string>

  /** Every character is already lower case. */
  predicate IsLower(s: string) {
    forall i :: 0 <= i < |s| ==> LowerChar(s[i]) == s[i]
  }

  /** `declaration.split(":", 2)`: two parts exactly when a ':' occurs; the key is trimmed and lower-cased, the value trimmed. */
  function SplitDecl(d: string): (r: Option<(string, string)>)
    ensures r.None? <==> ':' !in d
    ensures r.Some? ==> IsLower(r.value.0) && Trimmed(r.value.0) && Trimmed(r.value.1)
  {
    if ':' !in d then None
    else
      var i := IndexOf(d, ':');
      var key := ToLower(Trim(d[..i]));
      LowerTrimmed(Trim(d[..i]));
      Some((key, Trim(d[i + 1..])))
  }

  /** Lower-casing keeps a string trimmed and makes it lower case. */
  lemma LowerTrimmed(s: string)
    requires Trimmed(s)
    ensures Trimmed(ToLower(s)) && IsLower(ToLower(s))
  {
  }

  /** Declaration `d` has key `k`. */
  predicate Declares(d: string, k: string) {
    SplitDecl(d).Some? && SplitDecl(d).value.0 == k
  }

  /** `ds[i]` is the last declaration in `ds` with key `k`. */
  predicate LastDeclaration(ds: seq<string>, k: string, i: int) {
    && 0 <= i < |ds|
    && Declares(ds[i], k)
    && forall j :: i < j < |ds| ==> !Declares(ds[j], k)
  }

  /** The loop over the declarations, each `put` replacing an earlier entry with the same key. */
  function ParseDecls(ds: seq<string>): (r: Styles)
    ensures forall k :: k in r ==> IsLower(k) && Trimmed(k) && Trimmed(r[k])
    decreases |ds|
  {
    if ds == [] then map[]
    else
      var m := ParseDecls(ds[..|ds| - 1]);
      match SplitDecl(ds[|ds| - 1])
      case None => m
      case Some(kv) => m[kv.0 := kv.1]
  }

  /** One more declaration: either it has no ':' and changes nothing, or it is put over the map so far. */
  lemma ParseDeclsSnoc(ds: seq<string>)
    requires ds != []
    ensures var m, d := ParseDecls(ds[..|ds| - 1]), SplitDecl(ds[|ds| - 1]);
      ParseDecls(ds) == if d.None? then m else m[d.value.0 := d.value.1]
  {
  }

  /** Some declaration of `ds` has key `k`. */
  predicate DeclaresSome(ds: seq<string>, k: string) {
    exists i :: 0 <= i < |ds| && Declares(ds[i], k)
  }

  lemma DeclaresSomeSnoc(ds: seq<string>, k: string)
    requires ds != []
    ensures DeclaresSome(ds, k) <==> DeclaresSome(ds[..|ds| - 1], k) || Declares(ds[|ds| - 1], k)
  {
    var init := ds[..|ds| - 1];
    if DeclaresSome(ds, k) && !Declares(ds[|ds| - 1], k) {
      var i :| 0 <= i < |ds| && Declares(ds[i], k);
      assert init[i] == ds[i];
    }
    if DeclaresSome(init, k) {
      var i :| 0 <= i < |init| && Declares(init[i], k);
      assert ds[i] == init[i];
    }
  }

  /** The parsed map holds exactly the keys some declaration has. */
  lemma {:induction false} ParseDeclsKeys(ds: seq<string>, k: string)
    ensures k in ParseDecls(ds) <==> DeclaresSome(ds, k)
    decreases |ds|
  {
    if ds != [] {
      ParseDeclsKeys(ds[..|ds| - 1], k);
      ParseDeclsSnoc(ds);
      DeclaresSomeSnoc(ds, k);
    }
  }

  /** Dropping a final declaration after the last one of `k` keeps that one last. */
  lemma LastDeclarationInit(ds: seq<string>, k: string, i: int)
    requires LastDeclaration(ds, k, i) && i < |ds| - 1
    ensures LastDeclaration(ds[..|ds| - 1], k, i) && !Declares(ds[|ds| - 1], k)
  {
    var init := ds[..|ds| - 1];
    assert init[i] == ds[i];
    forall j | i < j < |init| ensures !Declares(init[j], k) {
      assert init[j] == ds[j];
    }
  }

  /** Each key maps to the value of its last declaration. */
  lemma {:induction false} ParseDeclsLast(ds: seq<string>, k: string, i: int)
    requires LastDeclaration(ds, k, i)
    ensures k in ParseDecls(ds) && ParseDecls(ds)[k] == SplitDecl(ds[i]).value.1
    decreases |ds|
  {
    var last := |ds| - 1;
    var d := SplitDecl(ds[last]);
    ParseDeclsSnoc(ds);
    if i < last {
      LastDeclarationInit(ds, k, i);
      ParseDeclsLast(ds[..last], k, i);
      assert d.Some? ==> d.value.0 != k;
    }
  }

  /** `parseStyleAttribute`: split on ';', keep every declaration that holds a ':'. */
  function ParseStyleAttribute(attr: string): (r: Styles)
    ensures forall k :: k in r ==> IsLower(k) && Trimmed(k) && Trimmed(r[k])
    ensures r == ParseDecls(JavaSplit(attr, ';'))
  {
    ParseDeclsDropTrailing(SplitOn(attr, ';'));
    ParseDecls(SplitOn(attr, ';'))
  }

  /** Empty pieces hold no ':', so dropping them from the end leaves the map as it is. */
  lemma {:induction false} ParseDeclsDropTrailing(ds: seq<string>)
    ensures ParseDecls(DropTrailingEmpty(ds)) == ParseDecls(ds)
    decreases |ds|
  {
    if ds != [] && ds[|ds| - 1] == [] {
      ParseDeclsSnoc(ds);
      ParseDeclsDropTrailing(ds[..|ds| - 1]);
    }
  }

  /** Some declaration of `k` at or after `i` is the last one. */
  lemma {:induction false} LastOf(ds: seq<string>, k: string, i: int) returns (j: int)
    requires 0 <= i < |ds| && Declares(ds[i], k)
    ensures LastDeclaration(ds, k, j)
    decreases |ds| - i
  {
    if exists j' :: i < j' < |ds| && Declares(ds[j'], k) {
      var j' :| i < j' < |ds| && Declares(ds[j'], k);
      j := LastOf(ds, k, j');
    } else {
      j := i;
    }
  }

  /** A declaration the serializer writes: a lower-case trimmed key without ':' or ';', a trimmed value without ';'. */
  predicate WellFormedEntry(e: (string, string)) {
    && IsLower(e.0) && Trimmed(e.0) && ':' !in e.0 && ';' !in e.0
    && Trimmed(e.1) && ';' !in e.1
  }

  /** The text `key:value`. */
  function DeclText(e: (string, string)): string {
    e.0 + ":" + e.1
  }

  function DeclTexts(es: seq<(string, string)>): (r: seq<string>)
    ensures |r| == |es|
    ensures forall i :: 0 <= i < |es| ==> r[i] == DeclText(es[i])
  {
    if es == [] then [] else [DeclText(es[0])] + DeclTexts(es[1..])
  }

  /** A style attribute holding the given declarations in order. */
  function StyleText(es: seq<(string, string)>): string {
    JoinWith(DeclTexts(es), ";")
  }

  /** A well-formed declaration splits back into its key and value. */
  lemma DeclRoundTrip(e: (string, string))
    requires WellFormedEntry(e)
    ensures SplitDecl(DeclText(e)) == Some(e)
  {
    var (k, v) := e;
    var d := DeclText(e);
    assert d[|k|] == ':';
    var i := IndexOf(d, ':');
    assert i == |k|;
    assert d[..i] == k;
    assert d[i + 1..] == v;
    TrimPadded([], k, []);
    assert [] + k + [] == k;
    TrimPadded([], v, []);
    assert [] + v + [] == v;
    assert ToLower(k) == k;
  }

  /** Splitting a serialized list of declarations on ';' gives back one text per declaration. */
  lemma SplitStyleText(es: seq<(string, string)>)
    requires |es| > 0
    requires forall i :: 0 <= i < |es| ==> WellFormedEntry(es[i])
    ensures SplitOn(StyleText(es), ';') == DeclTexts(es)
  {
    var ds := DeclTexts(es);
    forall i | 0 <= i < |ds| ensures ';' !in ds[i] {
      assert ds[i] == es[i].0 + ":" + es[i].1;
    }
    SplitOnJoin(ds, ';');
  }

  /** Parsing a serialized list of declarations holds exactly the keys declared. */
  lemma ParseStyleTextKeys(es: seq<(string, string)>, k: string)
    requires forall i :: 0 <= i < |es| ==> WellFormedEntry(es[i])
    ensures k in ParseStyleAttribute(StyleText(es)) <==> exists i :: 0 <= i < |es| && es[i].0 == k
  {
    if es == [] {
      assert SplitOn(StyleText(es), ';') == [""];
      assert ParseDecls([""]) == map[];
    } else {
      var ds := DeclTexts(es);
      SplitStyleText(es);
      ParseDeclsKeys(ds, k);
      if exists i :: 0 <= i < |es| && es[i].0 == k {
        var i :| 0 <= i < |es| && es[i].0 == k;
        DeclRoundTrip(es[i]);
        assert Declares(ds[i], k);
      }
      if exists i :: 0 <= i < |ds| && Declares(ds[i], k) {
        var i :| 0 <= i < |ds| && Declares(ds[i], k);
        DeclRoundTrip(es[i]);
      }
    }
  }

  /** In a serialized list of declarations, the last declaration of a key gives its value. */
  lemma ParseStyleTextLast(es: seq<(string, string)>, i: int)
    requires forall i :: 0 <= i < |es| ==> WellFormedEntry(es[i])
    requires 0 <= i < |es| && forall j :: i < j < |es| ==> es[j].0 != es[i].0
    ensures var r := ParseStyleAttribute(StyleText(es));
      es[i].0 in r && r[es[i].0] == es[i].1
  {
    var ds := DeclTexts(es);
    SplitStyleText(es);
    DeclRoundTrip(es[i]);
    forall j | i < j < |es| ensures !Declares(ds[j], es[i].0) {
      DeclRoundTrip(es[j]);
    }
    assert LastDeclaration(ds, es[i].0, i);
    ParseDeclsLast(ds, es[i].0, i);
  }

  /** Declarations without a ':' are dropped, whatever they hold. */
  lemma DeclWithoutColonDropped(attr: string)
    requires ':' !in attr
    ensures ParseStyleAttribute(attr) == map[]
  {
    var ds := SplitOn(attr, ';');
    forall i | 0 <= i < |ds| ensures ':' !in ds[i] {
      JoinContainsPart(ds, i, [';']);
    }
    var r := ParseStyleAttribute(attr);
    forall k ensures k !in r {
      ParseDeclsKeys(ds, k);
    }
    assert r.Keys == {};
  }

  /** Every part of a join occurs inside it. */
  lemma {:induction false} JoinContainsPart(parts: seq<string>, i: int, sep: string)
    requires 0 <= i < |parts|
    ensures forall c :: c in parts[i] ==> c in JoinWith(parts, sep)
    decreases |parts|
  {
    if |parts| > 1 && i > 0 {
      JoinContainsPart(parts[1..], i - 1, sep);
      assert JoinWith(parts, sep) == parts[0] + sep + JoinWith(parts[1..], sep);
    }
  }

  /** The value at `k` parsed by `Integer.parseInt`, when present and well formed. */
  function IntAt(m: Styles, k: string): Option<int> {
    if k in m then ParseInt(m[k]) else None
  }

  /** The flex weight after the map: its `flex-weight` when that parses, otherwise `current`. */
  function FlexOf(m: Styles, current: Option<int>): Option<int> {
    match IntAt(m, "flex-weight")
    case Some(n) => Some(n)
    case None => current
  }

  /** No key is listed twice. */
  predicate Distinct(order: seq<string>) {
    forall i, j :: 0 <= i < j < |order| ==> order[i] != order[j]
  }

  /** Every listed key is a key of `m`. */
  predicate Within(order: seq<string>, m: Styles) {
    forall i :: 0 <= i < |order| ==> order[i] in m
  }

  /** `order` lists every key of `m` exactly once: one possible iteration order of the hash map. */
  ghost predicate Enumerates(order: seq<string>, m: Styles) {
    && Distinct(order)
    && (forall k :: k in m <==> k in order)
  }

  /** The entries of `m` an iteration in `order` has visited. */
  function Seen(m: Styles, order: seq<string>): (r: Styles)
    requires Within(order, m)
    ensures forall k :: k in r <==> k in order
    ensures forall k :: k in r ==> r[k] == m[k]
    decreases |order|
  {
    if order == [] then map[]
    else
      var init := order[..|order| - 1];
      assert order == init + [order[|order| - 1]];
      Seen(m, init)[order[|order| - 1] := m[order[|order| - 1]]]
  }

  /** A full iteration has visited the whole map. */
  lemma SeenAll(m: Styles, order: seq<string>)
    requires Enumerates(order, m)
    ensures Within(order, m) && Seen(m, order) == m
  {
    var r := Seen(m, order);
    assert r.Keys == m.Keys;
  }

  /** The prefix of a distinct enumeration does not contain its last key yet. */
  lemma DistinctInit(order: seq<string>)
    requires Distinct(order) && order != []
    ensures Distinct(order[..|order| - 1]) && order[|order| - 1] !in order[..|order| - 1]
  {
  }

  /** Inserting a fresh key anywhere into an enumeration enumerates the extended map. */
  lemma EnumeratesInsert(order: seq<string>, m: Styles, k: string, v: string, i: int)
    requires Enumerates(order, m) && k !in m && 0 <= i <= |order|
    ensures Enumerates(order[..i] + [k] + order[i..], m[k := v])
  {
    var order' := order[..i] + [k] + order[i..];
    assert forall key :: key in order' <==> key in order || key == k by {
      assert order == order[..i] + order[i..];
    }
    assert Distinct(order') by {
      assert forall j :: 0 <= j < i ==> order'[j] == order[j];
      assert forall j :: i < j < |order'| ==> order'[j] == order[j - 1];
      forall p, q | 0 <= p < q < |order'| ensures order'[p] != order'[q] {
        if p == i {
          assert order'[q] == order[q - 1] && order[q - 1] in m;
        } else if q == i {
          assert order'[p] == order[p] && order[p] in m;
        }
      }
    }
  }

  /** A key of the map sits at some position of a full enumeration. */
  lemma PositionOf(styles: Styles, order: seq<string>, k: string) returns (i: int)
    requires Enumerates(order, styles) && k in styles
    ensures 0 <= i < |order| && order[i] == k
  {
    assert k in order;
    i :| 0 <= i < |order| && order[i] == k;
  }

  /** `rs[i]` is the last request made in `rs`: the one a sequence of overwrites leaves in place. */
  predicate LastRequest<T>(rs: seq<Option<T>>, i: int) {
    && 0 <= i < |rs|
    && rs[i].Some?
    && forall j :: i < j < |rs| ==> rs[j].None?
  }

  /** A further request becomes the last one; a further non-request leaves the last one in place. */
  lemma LastRequestSnoc<T>(rs: seq<Option<T>>, x: Option<T>)
    ensures forall i :: LastRequest(rs + [x], i) <==> (x.Some? && i == |rs|) || (x.None? && LastRequest(rs, i))
  {
    forall i ensures LastRequest(rs + [x], i) <==> (x.Some? && i == |rs|) || (x.None? && LastRequest(rs, i)) {
      LastRequestSnocAt(rs, x, i);
    }
  }

  lemma LastRequestSnocAt<T>(rs: seq<Option<T>>, x: Option<T>, i: int)
    ensures LastRequest(rs + [x], i) <==> (x.Some? && i == |rs|) || (x.None? && LastRequest(rs, i))
  {
    var rs' := rs + [x];
    assert rs'[|rs|] == x;
    if x.None? && LastRequest(rs', i) {
      assert i < |rs|;
      forall j | i < j < |rs| ensures rs[j].None? {
        assert rs[j] == rs'[j];
      }
    }
    if x.None? && LastRequest(rs, i) {
      forall j | i < j < |rs'| ensures rs'[j].None? {
        if j < |rs| {
          assert rs[j] == rs'[j];
        }
      }
    }
  }

  /**
   `cur` is what a sequence of overwrites `rs` leaves of `start`: `start` when nothing
   was requested, the last request otherwise.
   */
  predicate SettledBy<T(==)>(rs: seq<Option<T>>, start: T, cur: T) {
    && ((forall i :: 0 <= i < |rs| ==> rs[i].None?) ==> cur == start)
    && (forall i :: 0 <= i < |rs| && LastRequest(rs, i) ==> cur == rs[i].value)
  }

  /** `SettledBy` for a field that is itself optional and is overwritten with `Some`. */
  predicate SettledSomeBy<T(==)>(rs: seq<Option<T>>, start: Option<T>, cur: Option<T>) {
    && ((forall i :: 0 <= i < |rs| ==> rs[i].None?) ==> cur == start)
    && (forall i :: 0 <= i < |rs| && LastRequest(rs, i) ==> cur == Some(rs[i].value))
  }

  /** One more overwrite step keeps `SettledBy`. */
  lemma SettledSnoc<T>(rs: seq<Option<T>>, x: Option<T>, start: T, cur: T)
    requires SettledBy(rs, start, cur)
    ensures SettledBy(rs + [x], start, x.GetOr(cur))
  {
    LastRequestSnoc(rs, x);
    var rs' := rs + [x];
    if forall i :: 0 <= i < |rs'| ==> rs'[i].None? {
      assert forall i :: 0 <= i < |rs| ==> rs[i] == rs'[i];
      assert rs'[|rs|] == x;
    }
  }

  /** One more overwrite step keeps `SettledSomeBy`. */
  lemma SettledSomeSnoc<T>(rs: seq<Option<T>>, x: Option<T>, start: Option<T>, cur: Option<T>)
    requires SettledSomeBy(rs, start, cur)
    ensures SettledSomeBy(rs + [x], start, if x.Some? then Some(x.value) else cur)
  {
    LastRequestSnoc(rs, x);
    var rs' := rs + [x];
    if forall i :: 0 <= i < |rs'| ==> rs'[i].None? {
      assert forall i :: 0 <= i < |rs| ==> rs[i] == rs'[i];
      assert rs'[|rs|] == x;
    }
  }

  /** When only the entry at `i` can make a request, it alone decides the outcome. */
  lemma SettledByOnly<T>(rs: seq<Option<T>>, start: T, cur: T, i: int)
    requires SettledBy(rs, start, cur) && 0 <= i < |rs|
    requires forall j :: 0 <= j < |rs| && j != i ==> rs[j].None?
    ensures cur == rs[i].GetOr(start)
  {
    if rs[i].Some? {
      assert LastRequest(rs, i);
    }
  }

  /** Whenever some entry makes a request, one of the entries is the last request. */
  lemma {:induction false} LastRequestExists<T>(rs: seq<Option<T>>, i: int)
    requires 0 <= i < |rs| && rs[i].Some?
    ensures exists j :: LastRequest(rs, j)
    decreases |rs| - i
  {
    if exists j :: i < j < |rs| && rs[j].Some? {
      var j :| i < j < |rs| && rs[j].Some?;
      LastRequestExists(rs, j);
    } else {
      assert LastRequest(rs, i);
    }
  }

  /** `SettledByOnly` for an optional field. */
  lemma SettledSomeByOnly<T>(rs: seq<Option<T>>, start: Option<T>, cur: Option<T>, i: int)
    requires SettledSomeBy(rs, start, cur) && 0 <= i < |rs|
    requires forall j :: 0 <= j < |rs| && j != i ==> rs[j].None?
    ensures cur == if rs[i].Some? then Some(rs[i].value) else start
  {
    if rs[i].Some? {
      assert LastRequest(rs, i);
    }
  }

  /** Whether `s` is one of the multi-word layout names and, if so, its spelling. */
  function LayoutName(s: string): Option<string> {
    var lower := ToLower(s);
    if lower == "topscrolling" then Some("TopScrolling")
    else if lower == "bottomscrolling" then Some("BottomScrolling")
    else if lower == "middlecenter" then Some("MiddleCenter")
    else if lower == "centermiddle" then Some("CenterMiddle")
    else if lower == "leftcenterwrap" then Some("LeftCenterWrap")
    else None
  }

  /** A lower-case ASCII letter. */
  predicate IsLowerLetter(c: char) {
    'a' <= c <= 'z'
  }

  /** One of the five multi-word layout names, compared case-insensitively. */
  predicate IsLayoutWord(s: string) {
    || MatchesWord(s, "topscrolling") || MatchesWord(s, "bottomscrolling")
    || MatchesWord(s, "middlecenter") || MatchesWord(s, "centermiddle")
    || MatchesWord(s, "leftcenterwrap")
  }

  /**
   `capitalize`: the empty string is returned as is, the five multi-word layout
   names get their fixed spelling, anything else has its first character upper-cased.
   */
  function Capitalize(s: string): (r: string)
    ensures |r| == |s|
    ensures EqualsIgnoreCase(r, s)
    ensures r != [] ==> !IsLowerLetter(r[0])
    ensures MatchesWord(s, "topscrolling") ==> r == "TopScrolling"
    ensures MatchesWord(s, "bottomscrolling") ==> r == "BottomScrolling"
    ensures MatchesWord(s, "middlecenter") ==> r == "MiddleCenter"
    ensures MatchesWord(s, "centermiddle") ==> r == "CenterMiddle"
    ensures MatchesWord(s, "leftcenterwrap") ==> r == "LeftCenterWrap"
    ensures s != [] && !IsLayoutWord(s) ==> r[1..] == s[1..]
  {
    if s == [] then s
    else match LayoutName(s)
      case Some(name) =>
        LayoutNameSpelling(s);
        name
      case None => UpperFirst(s)
  }

  /** The first character upper-cased, the rest as it was. */
  function UpperFirst(s: string): (r: string)
    requires s != []
    ensures |r| == |s| && EqualsIgnoreCase(r, s) && !IsLowerLetter(r[0]) && r[1..] == s[1..]
  {
    var r := [UpperChar(s[0])] + s[1..];
    assert ToLower(r) == ToLower(s) by {
      assert forall i :: 1 <= i < |s| ==> r[i] == s[i];
    }
    r
  }

  /** `name` can stand for `s`: same length, same letters ignoring case, no lower-case first letter. */
  predicate Fits(name: string, s: string) {
    |name| == |s| && EqualsIgnoreCase(name, s) && name != [] && !IsLowerLetter(name[0])
  }

  /** The fixed spellings fit the name they replace. */
  lemma LayoutNameSpelling(s: string)
    requires LayoutName(s).Some?
    ensures Fits(LayoutName(s).value, s)
  {
    var lower := ToLower(s);
    if lower == "topscrolling" {
      TopScrollingFits(s);
    } else if lower == "bottomscrolling" {
      BottomScrollingFits(s);
    } else if lower == "middlecenter" {
      MiddleCenterFits(s);
    } else if lower == "centermiddle" {
      CenterMiddleFits(s);
    } else {
      LeftCenterWrapFits(s);
    }
  }

  /** A capitalized spelling with the lower-case form of `s` fits `s`. */
  lemma SpellingFits(s: string, name: string)
    requires ToLower(name) == ToLower(s) && name != [] && 'A' <= name[0] <= 'Z'
    ensures Fits(name, s)
  {
  }

  /** A string lower-cases to `l` when it does so character by character. */
  lemma LowerPointwise(t: string, l: string)
    requires |t| == |l|
    requires forall i :: 0 <= i < |t| ==> LowerChar(t[i]) == l[i]
    ensures ToLower(t) == l
  {
  }

  lemma TopScrollingFits(s: string)
    requires ToLower(s) == "topscrolling"
    ensures Fits("TopScrolling", s)
  {
    LowerPointwise("TopScrolling", "topscrolling");
    SpellingFits(s, "TopScrolling");
  }

  lemma BottomScrollingFits(s: string)
    requires ToLower(s) == "bottomscrolling"
    ensures Fits("BottomScrolling", s)
  {
    LowerPointwise("BottomScrolling", "bottomscrolling");
    SpellingFits(s, "BottomScrolling");
  }

  lemma MiddleCenterFits(s: string)
    requires ToLower(s) == "middlecenter"
    ensures Fits("MiddleCenter", s)
  {
    LowerPointwise("MiddleCenter", "middlecenter");
    SpellingFits(s, "MiddleCenter");
  }

  lemma CenterMiddleFits(s: string)
    requires ToLower(s) == "centermiddle"
    ensures Fits("CenterMiddle", s)
  {
    LowerPointwise("CenterMiddle", "centermiddle");
    SpellingFits(s, "CenterMiddle");
  }

  lemma LeftCenterWrapFits(s: string)
    requires ToLower(s) == "leftcenterwrap"
    ensures Fits("LeftCenterWrap", s)
  {
    LowerPointwise("LeftCenterWrap", "leftcenterwrap");
    SpellingFits(s, "LeftCenterWrap");
  }

  /** Capitalizing twice is capitalizing once. */
  lemma CapitalizeIdempotent(s: string)
    ensures Capitalize(Capitalize(s)) == Capitalize(s)
  {
    var r := Capitalize(s);
    if s != [] {
      assert LayoutName(r) == LayoutName(s) by {
        assert ToLower(r) == ToLower(s);
      }
      if LayoutName(s).None? {
        assert UpperChar(r[0]) == r[0];
        assert r == [r[0]] + r[1..];
      }
    }
  }
}
