/**
 The parts of java.lang.String that the style parser and the DSL generator rely on:
 trim, ASCII case mapping, indexOf/lastIndexOf, split on a character, split on
 runs of whitespace, and character filtering (replaceAll with a negated class).
 */
module Strings {

  /** `String.trim` removes every leading and trailing character at or below U+0020. */
  predicate IsBlank(c: char) {
    c <= ' '
  }

  /** The characters matched by the regular-expression class `\s`. */
  predicate IsSpace(c: char) {
    c == ' ' || c == '\t' || c == '\n' || c == '\U{B}' || c == '\U{C}' || c == '\r'
  }

  predicate AllBlank(s: string) {
    forall i :: 0 <= i < |s| ==> IsBlank(s[i])
  }

  /** Neither end of `s` is a blank (vacuously true of the empty string). */
  predicate Trimmed(s: string) {
    s == [] || (!IsBlank(s[0]) && !IsBlank(s[|s| - 1]))
  }

  /** `String.trim`. */
  function Trim(s: string): (r: string)
    ensures |r| <= |s|
    ensures Trimmed(r)
    ensures r == [] <==> AllBlank(s)
    decreases |s|
  {
    if |s| > 0 && IsBlank(s[0]) then
      assert forall i :: 1 <= i < |s| ==> s[1..][i - 1] == s[i];
      Trim(s[1..])
    else if |s| > 0 && IsBlank(s[|s| - 1]) then
      Trim(s[..|s| - 1])
    else
      s
  }

  lemma TrimFront(s: string)
    requires |s| > 0 && IsBlank(s[0])
    ensures Trim(s) == Trim(s[1..])
  {
  }

  lemma TrimBack(s: string)
    requires |s| > 0 && !IsBlank(s[0]) && IsBlank(s[|s| - 1])
    ensures Trim(s) == Trim(s[..|s| - 1])
  {
  }

  /** Trimming removes exactly the blank padding around a trimmed core. */
  lemma {:induction false} TrimPadded(pre: string, core: string, post: string)
    requires AllBlank(pre) && AllBlank(post) && Trimmed(core)
    ensures Trim(pre + core + post) == core
    decreases |pre| + |post|
  {
    var s := pre + core + post;
    if |pre| > 0 {
      assert s[0] == pre[0];
      assert s[1..] == pre[1..] + core + post;
      TrimPadded(pre[1..], core, post);
      TrimFront(s);
    } else if core == [] {
      assert s == post;
      assert AllBlank(s);
    } else if |post| > 0 {
      assert s == core + post;
      assert s[0] == core[0];
      assert s[|s| - 1] == post[|post| - 1];
      assert s[..|s| - 1] == pre + core + post[..|post| - 1];
      TrimPadded(pre, core, post[..|post| - 1]);
      TrimBack(s);
    } else {
      assert s == core;
    }
  }

  /** Trimming twice is trimming once. */
  lemma TrimIdempotent(s: string)
    ensures Trim(Trim(s)) == Trim(s)
  {
    TrimPadded([], Trim(s), []);
    assert [] + Trim(s) + [] == Trim(s);
  }

  /** ASCII `Character.toLowerCase`. */
  function LowerChar(c: char): char {
    if 'A' <= c <= 'Z' then (c as int + 32) as char else c
  }

  /** ASCII `Character.toUpperCase`. */
  function UpperChar(c: char): char {
    if 'a' <= c <= 'z' then (c as int - 32) as char else c
  }

  /** `String.toLowerCase`, over ASCII letters. */
  function ToLower(s: string): (r: string)
    ensures |r| == |s|
    ensures forall i :: 0 <= i < |s| ==> r[i] == LowerChar(s[i])
  {
    if s == [] then [] else [LowerChar(s[0])] + ToLower(s[1..])
  }

  /** `String.equalsIgnoreCase`, over ASCII letters. */
  predicate EqualsIgnoreCase(a: string, b: string) {
    ToLower(a) == ToLower(b)
  }

  /** `s.equalsIgnoreCase(word)` for a word written in lower case. */
  predicate MatchesWord(s: string, word: string) {
    ToLower(s) == word
  }

  /** Two prefixes that differ at some position cannot both start the same string. */
  lemma PrefixesDiffer(a: string, b: string, k: string, i: nat)
    requires i < |a| && i < |b| && a[i] != b[i] && a <= k
    ensures !(b <= k)
  {
  }

  /** A string starting with `pre` is `pre` followed by the rest, and that rest is unique. */
  lemma PrefixSplit(pre: string, k: string)
    requires pre <= k
    ensures k == pre + k[|pre|..]
    ensures forall x :: pre + x == k <==> x == k[|pre|..]
  {
    forall x ensures pre + x == k <==> x == k[|pre|..] {
      if pre + x == k {
        assert (pre + x)[|pre|..] == x;
      }
    }
  }

  /** `String.indexOf(c)` when `c` occurs. */
  function IndexOf(s: string, c: char): (i: nat)
    requires c in s
    ensures i < |s| && s[i] == c && c !in s[..i]
  {
    if s[0] == c then 0 else 1 + IndexOf(s[1..], c)
  }

  /** `String.lastIndexOf(c)`: -1 when `c` does not occur. */
  function LastIndexOf(s: string, c: char): (i: int)
    ensures -1 <= i < |s|
    ensures i == -1 <==> c !in s
    ensures 0 <= i ==> s[i] == c && c !in s[i + 1..]
  {
    if |s| == 0 then -1
    else if s[|s| - 1] == c then |s| - 1
    else
      assert s == s[..|s| - 1] + [s[|s| - 1]];
      LastIndexOf(s[..|s| - 1], c)
  }

  /** `String.join(sep, parts)`. */
  function JoinWith(parts: seq<string>, sep: string): string {
    if |parts| == 0 then []
    else if |parts| == 1 then parts[0]
    else parts[0] + sep + JoinWith(parts[1..], sep)
  }

  /** Joining one more piece adds the separator only when something was joined before. */
  lemma {:induction false} JoinSnoc(parts: seq<string>, x: string, sep: string)
    ensures JoinWith(parts + [x], sep) == if parts == [] then x else JoinWith(parts, sep) + sep + x
    decreases |parts|
  {
    if |parts| > 1 {
      assert (parts + [x])[1..] == parts[1..] + [x];
      JoinSnoc(parts[1..], x, sep);
    } else if |parts| == 1 {
      assert (parts + [x])[1..] == [x];
    } else {
      assert parts + [x] == [x];
    }
  }

  /** A join starts with its first piece. */
  lemma JoinStartsWithFirst(parts: seq<string>, sep: string)
    requires |parts| > 0
    ensures parts[0] <= JoinWith(parts, sep)
  {
  }

  /** Splitting on every occurrence of `sep`, keeping empty pieces. */
  function SplitOn(s: string, sep: char): (parts: seq<string>)
    ensures |parts| > 0
    ensures forall i :: 0 <= i < |parts| ==> sep !in parts[i]
    ensures JoinWith(parts, [sep]) == s
    decreases |s|
  {
    if sep !in s then [s]
    else
      var i := IndexOf(s, sep);
      var rest := SplitOn(s[i + 1..], sep);
      assert s == s[..i] + [sep] + s[i + 1..];
      assert ([s[..i]] + rest)[1..] == rest;
      [s[..i]] + rest
  }

  /** `ps` without its trailing empty strings. */
  function DropTrailingEmpty(ps: seq<string>): (r: seq<string>)
    ensures r <= ps
    ensures r == [] || r[|r| - 1] != []
    ensures forall i :: |r| <= i < |ps| ==> ps[i] == []
    decreases |ps|
  {
    if ps != [] && ps[|ps| - 1] == [] then DropTrailingEmpty(ps[..|ps| - 1]) else ps
  }

  /**
   `String.split` on a one-character separator: without a match it is the input itself,
   otherwise every piece with the trailing empty ones removed (so `";"` splits to nothing).
   */
  function JavaSplit(s: string, sep: char): (parts: seq<string>)
    ensures forall i :: 0 <= i < |parts| ==> sep !in parts[i]
    ensures sep !in s ==> parts == [s]
    ensures sep in s ==> parts == [] || parts[|parts| - 1] != []
    ensures parts <= SplitOn(s, sep)
    ensures forall i :: |parts| <= i < |SplitOn(s, sep)| ==> SplitOn(s, sep)[i] == []
  {
    if sep !in s then [s] else DropTrailingEmpty(SplitOn(s, sep))
  }

  /** A lone separator splits to nothing in Java; the empty string splits to itself. */
  lemma JavaSplitSeparatorOnly()
    ensures JavaSplit(";", ';') == [] && JavaSplit("", ';') == [""]
  {
    assert ";"[0] == ';' && ";"[1..] == [] && IndexOf(";", ';') == 0;
    assert SplitOn(";", ';') == ["", ""];
  }

  /** The first occurrence of `c` after a `c`-free head is right after the head. */
  lemma {:induction false} IndexOfAfter(head: string, c: char, rest: string)
    requires c !in head
    ensures c in head + [c] + rest && IndexOf(head + [c] + rest, c) == |head|
    decreases |head|
  {
    var s := head + [c] + rest;
    assert s[|head|] == c;
    if head != [] {
      assert s[0] == head[0];
      assert s[1..] == head[1..] + [c] + rest;
      IndexOfAfter(head[1..], c, rest);
    }
  }

  /** Splitting a separator-free head followed by the separator peels the head off. */
  lemma SplitOnCons(head: string, sep: char, rest: string)
    requires sep !in head
    ensures SplitOn(head + [sep] + rest, sep) == [head] + SplitOn(rest, sep)
  {
    var s := head + [sep] + rest;
    IndexOfAfter(head, sep, rest);
    assert s[..|head|] == head;
    assert s[|head| + 1..] == rest;
  }

  /** Splitting a join of separator-free pieces gives the pieces back. */
  lemma {:induction false} SplitOnJoin(parts: seq<string>, sep: char)
    requires |parts| > 0
    requires forall i :: 0 <= i < |parts| ==> sep !in parts[i]
    ensures SplitOn(JoinWith(parts, [sep]), sep) == parts
    decreases |parts|
  {
    if |parts| > 1 {
      var head, tail := parts[0], JoinWith(parts[1..], [sep]);
      assert JoinWith(parts, [sep]) == head + [sep] + tail;
      SplitOnCons(head, sep, tail);
      SplitOnJoin(parts[1..], sep);
      assert parts == [head] + parts[1..];
    }
  }

  /** `s.replaceAll("[^...]", "")`: the characters of `s` that satisfy `keep`, in order. */
  function Keep(s: string, keep: char -> bool): (r: string)
    ensures |r| <= |s|
    ensures forall i :: 0 <= i < |r| ==> keep(r[i])
    ensures forall c :: c in r <==> c in s && keep(c)
    ensures (forall i :: 0 <= i < |s| ==> keep(s[i])) ==> r == s
    ensures (forall i :: 0 <= i < |s| ==> !keep(s[i])) ==> r == []
  {
    if s == [] then []
    else if keep(s[0]) then [s[0]] + Keep(s[1..], keep)
    else Keep(s[1..], keep)
  }

  lemma KeepCons(s: string, keep: char -> bool)
    requires s != []
    ensures Keep(s, keep) == (if keep(s[0]) then [s[0]] else []) + Keep(s[1..], keep)
  {
  }

  /** Filtering distributes over concatenation. */
  lemma {:induction false} KeepAppend(a: string, b: string, keep: char -> bool)
    ensures Keep(a + b, keep) == Keep(a, keep) + Keep(b, keep)
    decreases |a|
  {
    if a != [] {
      assert (a + b)[0] == a[0];
      assert (a + b)[1..] == a[1..] + b;
      KeepCons(a + b, keep);
      KeepCons(a, keep);
      KeepAppend(a[1..], b, keep);
    } else {
      assert a + b == b;
    }
  }

  /** Length of the run of non-whitespace characters at the start of `s`. */
  function RunLength(s: string): (n: nat)
    ensures n <= |s|
    ensures forall i :: 0 <= i < n ==> !IsSpace(s[i])
    ensures n < |s| ==> IsSpace(s[n])
  {
    if s == [] || IsSpace(s[0]) then 0 else 1 + RunLength(s[1..])
  }

  predicate NoSpace(t: string) {
    forall j :: 0 <= j < |t| ==> !IsSpace(t[j])
  }

  /** A token as `split("\\s+")` produces it between separators: non-empty, without whitespace. */
  predicate IsToken(t: string) {
    t != [] && NoSpace(t)
  }

  /** The maximal runs of non-whitespace characters of `s`, in order. */
  function Tokens(s: string): (ts: seq<string>)
    ensures forall i :: 0 <= i < |ts| ==> IsToken(ts[i])
    ensures ts == [] <==> forall i :: 0 <= i < |s| ==> IsSpace(s[i])
    decreases |s|
  {
    if s == [] then []
    else if IsSpace(s[0]) then
      assert forall i :: 1 <= i < |s| ==> s[1..][i - 1] == s[i];
      Tokens(s[1..])
    else
      var n := RunLength(s);
      [s[..n]] + Tokens(s[n..])
  }

  /** A run stops exactly where a whitespace-free prefix meets whitespace or the end. */
  lemma {:induction false} RunLengthOf(t: string, rest: string)
    requires NoSpace(t) && (rest == [] || IsSpace(rest[0]))
    ensures RunLength(t + rest) == |t|
    decreases |t|
  {
    if t != [] {
      assert (t + rest)[0] == t[0];
      assert (t + rest)[1..] == t[1..] + rest;
      RunLengthOf(t[1..], rest);
    } else {
      assert t + rest == rest;
    }
  }

  lemma TokensOne(t: string)
    requires IsToken(t)
    ensures Tokens(t) == [t]
  {
    RunLengthOf(t, []);
    assert t + [] == t;
    assert t[..|t|] == t;
  }

  lemma TokensCons(t: string, rest: string)
    requires IsToken(t)
    ensures Tokens(t + " " + rest) == [t] + Tokens(rest)
  {
    var s := t + " " + rest;
    assert s == t + (" " + rest);
    RunLengthOf(t, " " + rest);
    assert s[0] == t[0];
    assert s[..|t|] == t;
    assert s[|t|..] == " " + rest;
    assert (" " + rest)[1..] == rest;
  }

  /** Tokenising a single-space join of tokens gives the tokens back. */
  lemma {:induction false} TokensJoin(ts: seq<string>)
    requires forall i :: 0 <= i < |ts| ==> IsToken(ts[i])
    ensures Tokens(JoinWith(ts, " ")) == ts
    decreases |ts|
  {
    if |ts| == 1 {
      TokensOne(ts[0]);
    } else if |ts| > 1 {
      var t, rest := ts[0], JoinWith(ts[1..], " ");
      assert JoinWith(ts, " ") == t + " " + rest;
      TokensCons(t, rest);
      TokensJoin(ts[1..]);
      assert ts == [t] + ts[1..];
    }
  }

  /** Java's `s.trim().split("\\s+")`: a blank string yields one empty token. */
  function SplitTrimmedWhitespace(s: string): (ts: seq<string>)
    ensures |ts| > 0
    ensures ts == [""] <==> AllBlank(s)
  {
    var t := Trim(s);
    if t == [] then [""] else
      assert !IsSpace(t[0]);
      var ts := Tokens(t);
      assert ts[0] != "";
      ts
  }
}
