/**
 TagHandler's `applyButtonStyles`: the style map of a button is sorted into four
 state buckets (default, hover, pressed, disabled), an anchor read with the lenient
 integer parser, and a flex weight read with the strict one. When the default
 bucket is not empty, the generated TextButtonStyle literal is hoisted through a
 pair of hooks: one defines a style variable before the button, the other points
 the button's Style at it.

 As on the plain path, the hash map's iteration order is a parameter. It matters
 only for the pressed bucket, which `--pressed-x` and `--active-x` both write to.
 */
module ButtonStyles {
  import opened Wrappers
  import opened Strings
  import opened Integers
  import opened Elements
  import opened StyleAttribute
  import Gen = ButtonStyleGenerator

  /** Where one key of a button's style map goes, by the `if` chain of the loop body. */
  datatype Route =
    | ToHover(prop: string)
    | ToPressed(prop: string)
    | ToDisabled(prop: string)
    | ToAnchor(edge: string)
    | ToFlex
    | Skipped
    | ToDefault

  /** The branch of the loop a key takes; prefixes are stripped from pseudo-state keys. */
  function RouteOf(k: string): Route {
    if "--hover-" <= k then ToHover(k[8..])
    else if "--pressed-" <= k then ToPressed(k[10..])
    else if "--active-" <= k then ToPressed(k[9..])
    else if "--disabled-" <= k then ToDisabled(k[11..])
    else if "anchor-" <= k then ToAnchor(k[7..])
    else if k == "flex-weight" then ToFlex
    else if k == "layout-mode" || k == "layout" || k == "padding" then Skipped
    else ToDefault
  }

  /** The pseudo-state routes, told apart by their prefixes. */
  predicate PrefixRoutes(r: Route, k: string) {
    && ("--hover-" <= k <==> r.ToHover?)
    && (r.ToHover? ==> k == "--hover-" + r.prop)
    && ("--disabled-" <= k <==> r.ToDisabled?)
    && (r.ToDisabled? ==> k == "--disabled-" + r.prop)
    && (r.ToPressed? ==> k == "--pressed-" + r.prop || k == "--active-" + r.prop)
  }

  /** The anchor route is taken by the `anchor-` keys, the flex-weight route by one key. */
  predicate ElementRoutes(r: Route, k: string) {
    && ("anchor-" <= k <==> r.ToAnchor?)
    && (r.ToAnchor? ==> k == "anchor-" + r.edge)
    && (r == ToFlex <==> k == "flex-weight")
  }

  lemma RouteNames(k: string)
    ensures PrefixRoutes(RouteOf(k), k) && ElementRoutes(RouteOf(k), k)
  {
    RoutePrefixes(k);
    RouteElements(k);
  }

  lemma RoutePrefixes(k: string)
    ensures PrefixRoutes(RouteOf(k), k)
  {
    match RouteOf(k)
    case ToHover(p) =>
      PrefixSplit("--hover-", k);
      PrefixesDiffer("--hover-", "--disabled-", k, 2);
    case ToPressed(p) =>
      if "--pressed-" <= k {
        PrefixSplit("--pressed-", k);
        PrefixesDiffer("--pressed-", "--disabled-", k, 2);
      } else {
        PrefixSplit("--active-", k);
        PrefixesDiffer("--active-", "--disabled-", k, 2);
      }
    case ToDisabled(p) => PrefixSplit("--disabled-", k);
    case _ =>
  }

  lemma RouteElements(k: string)
    ensures ElementRoutes(RouteOf(k), k)
  {
    if "anchor-" <= k {
      PrefixSplit("anchor-", k);
      PrefixesDiffer("anchor-", "--hover-", k, 0);
      PrefixesDiffer("anchor-", "--pressed-", k, 0);
      PrefixesDiffer("anchor-", "--active-", k, 0);
      PrefixesDiffer("anchor-", "--disabled-", k, 0);
    }
    if k == "flex-weight" {
      assert !("--hover-" <= k) && !("--pressed-" <= k) && !("--active-" <= k) && !("--disabled-" <= k) && !("anchor-" <= k) by {
        assert k[0] == 'f';
      }
    }
  }

  /** A pressed-state key written either way lands on the property after its prefix. */
  lemma PressedRoutes(p: string)
    ensures RouteOf("--pressed-" + p) == ToPressed(p)
    ensures RouteOf("--active-" + p) == ToPressed(p)
  {
    var a, b := "--pressed-" + p, "--active-" + p;
    assert a[..10] == "--pressed-" && a[10..] == p;
    assert b[..9] == "--active-" && b[9..] == p;
    assert !("--hover-" <= a) by { assert a[2] != "--hover-"[2]; }
    assert !("--hover-" <= b) by { assert b[2] != "--hover-"[2]; }
    assert !("--pressed-" <= b) by { assert b[2] != "--pressed-"[2]; }
  }

  /** The four state maps `applyButtonStyles` fills. */
  datatype Buckets = Buckets(default: Styles, hover: Styles, pressed: Styles, disabled: Styles)

  /** The loop's state: the buckets, the anchor and whether it was set, and the element's flex weight. */
  datatype Sorting = Sorting(buckets: Buckets, anchor: Anchor, hasAnchor: bool, flexWeight: Option<int>)

  /** Four fresh hash maps, a fresh anchor, and the element's current flex weight. */
  function StartSorting(flexWeight: Option<int>): Sorting {
    Sorting(Buckets(map[], map[], map[], map[]), EmptyAnchor, false, flexWeight)
  }

  /** The edges the inner `switch (anchorProp)` names; `anchor-full` and others fall through. */
  predicate IsEdge(e: string) {
    e == "top" || e == "left" || e == "right" || e == "bottom" || e == "width" || e == "height"
  }

  /** The anchor setter one edge name selects. */
  function SetEdge(a: Anchor, e: string, n: int): Anchor {
    if e == "top" then a.(top := Some(n))
    else if e == "left" then a.(left := Some(n))
    else if e == "right" then a.(right := Some(n))
    else if e == "bottom" then a.(bottom := Some(n))
    else if e == "width" then a.(width := Some(n))
    else if e == "height" then a.(height := Some(n))
    else a
  }

  /** One iteration of the loop, split by what each branch writes to. */
  function SortEntry(s: Sorting, k: string, v: string): Sorting {
    var r := RouteOf(k);
    Sorting(
      buckets := BucketCase(s.buckets, r, k, v),
      anchor := EdgeCase(s.anchor, r, v),
      hasAnchor := s.hasAnchor || SetsEdge(r, v),
      flexWeight := FlexCase(s.flexWeight, r, v))
  }

  /** The branches that put the entry into a state bucket, the default one keeping the key whole. */
  function BucketCase(b: Buckets, r: Route, k: string, v: string): Buckets {
    match r
    case ToHover(p) => b.(hover := b.hover[p := v])
    case ToPressed(p) => b.(pressed := b.pressed[p := v])
    case ToDisabled(p) => b.(disabled := b.disabled[p := v])
    case ToDefault => b.(default := b.default[k := v])
    case _ => b
  }

  /** The `anchor-` branch: a value the lenient parser accepts, on a named edge, sets that edge. */
  function EdgeCase(a: Anchor, r: Route, v: string): Anchor {
    match LenientParseInt(v)
    case None => a
    case Some(n) => if r.ToAnchor? then SetEdge(a, r.edge, n) else a
  }

  predicate SetsEdge(r: Route, v: string) {
    r.ToAnchor? && IsEdge(r.edge) && LenientParseInt(v).Some?
  }

  /** The `flex-weight` branch, with the strict parser. */
  function FlexCase(w: Option<int>, r: Route, v: string): Option<int> {
    if r == ToFlex then
      match ParseInt(v)
      case Some(n) => Some(n)
      case None => w
    else w
  }

  /** The loop over the entries in `order`. */
  function SortEntries(s: Sorting, styles: Styles, order: seq<string>): Sorting
    requires Within(order, styles)
    decreases |order|
  {
    if order == [] then s
    else
      var k := order[|order| - 1];
      SortEntry(SortEntries(s, styles, order[..|order| - 1]), k, styles[k])
  }

  // Order-free reference definitions of the buckets and the anchor.

  /** The default bucket: every entry whose key takes the final `else`. */
  function DefaultBucket(m: Styles): Styles {
    map k | k in m && RouteOf(k) == ToDefault :: m[k]
  }

  /** `b` holds, under each property `p`, the entry of `m` keyed `prefix + p`, and nothing else. */
  ghost predicate Bucket(b: Styles, m: Styles, prefix: string) {
    forall p :: (p in b <==> prefix + p in m) && (p in b ==> b[p] == m[prefix + p])
  }

  /** The value at `k` read with the lenient parser, when present and accepted. */
  function LenientAt(m: Styles, k: string): Option<int> {
    if k in m then LenientParseInt(m[k]) else None
  }

  /** The `anchor-` entry for edge `e`, read with the lenient parser. */
  function EdgeAt(m: Styles, e: string): Option<int> {
    LenientAt(m, "anchor-" + e)
  }

  /** The anchor the map gives a button: six edges by the lenient parser; `anchor` itself is not read. */
  function ButtonAnchor(m: Styles): Anchor {
    Anchor(
      left := EdgeAt(m, "left"),
      right := EdgeAt(m, "right"),
      top := EdgeAt(m, "top"),
      bottom := EdgeAt(m, "bottom"),
      width := EdgeAt(m, "width"),
      height := EdgeAt(m, "height"),
      full := None)
  }

  /** For one pressed property, the writes of the entries in iteration order. */
  function PressedRequests(styles: Styles, order: seq<string>, p: string): seq<Option<string>>
    requires Within(order, styles)
  {
    seq(|order|, i requires 0 <= i < |order| => if RouteOf(order[i]) == ToPressed(p) then Some(styles[order[i]]) else None)
  }

  lemma PressedRequestsSnoc(styles: Styles, order: seq<string>, p: string)
    requires Within(order, styles) && order != []
    ensures var k := order[|order| - 1];
      PressedRequests(styles, order, p) ==
        PressedRequests(styles, order[..|order| - 1], p) + [if RouteOf(k) == ToPressed(p) then Some(styles[k]) else None]
  {
    var init := order[..|order| - 1];
    var rs, rs' := PressedRequests(styles, init, p), PressedRequests(styles, order, p);
    forall i | 0 <= i < |rs| ensures rs'[i] == rs[i] {
      assert order[i] == init[i];
    }
  }

  // One step of the loop keeps each part equal to its reference on the entries seen.

  /** Adding the entry `prefix + q` puts it under `q`. */
  lemma BucketPut(b: Styles, m: Styles, prefix: string, k: string, q: string, v: string)
    requires Bucket(b, m, prefix) && k == prefix + q
    ensures Bucket(b[q := v], m[k := v], prefix)
  {
    forall p ensures (p in b[q := v] <==> prefix + p in m[k := v]) && (p in b[q := v] ==> b[q := v][p] == m[k := v][prefix + p]) {
      if p != q {
        assert (prefix + p)[|prefix|..] == p && (prefix + q)[|prefix|..] == q;
      }
    }
  }

  /** Adding an entry without the prefix leaves the bucket as it was. */
  lemma BucketSkip(b: Styles, m: Styles, prefix: string, k: string, v: string)
    requires Bucket(b, m, prefix) && !(prefix <= k)
    ensures Bucket(b, m[k := v], prefix)
  {
    forall p ensures prefix + p != k {
      assert prefix <= prefix + p;
    }
  }

  lemma DefaultStep(d: Styles, m: Styles, k: string, r: Route, v: string)
    requires k !in m && r == RouteOf(k) && d == DefaultBucket(m)
    ensures (if r == ToDefault then d[k := v] else d) == DefaultBucket(m[k := v])
  {
  }

  lemma EdgeStep(a: Anchor, has: bool, m: Styles, k: string, r: Route, v: string)
    requires k !in m && ElementRoutes(r, k)
    requires a == ButtonAnchor(m) && has == (a != EmptyAnchor)
    ensures var a' := EdgeCase(a, r, v);
      a' == ButtonAnchor(m[k := v]) && (has || SetsEdge(r, v)) == (a' != EmptyAnchor)
  {
    if r.ToAnchor? {
      var e := r.edge;
      EdgeAtPut(m, e, "left", v);
      EdgeAtPut(m, e, "right", v);
      EdgeAtPut(m, e, "top", v);
      EdgeAtPut(m, e, "bottom", v);
      EdgeAtPut(m, e, "width", v);
      EdgeAtPut(m, e, "height", v);
    } else {
      EdgeAtSkip(m, k, v, "left");
      EdgeAtSkip(m, k, v, "right");
      EdgeAtSkip(m, k, v, "top");
      EdgeAtSkip(m, k, v, "bottom");
      EdgeAtSkip(m, k, v, "width");
      EdgeAtSkip(m, k, v, "height");
    }
  }

  /** Writing the entry for edge `e` changes what edge `e'` reads only when they are the same edge. */
  lemma EdgeAtPut(m: Styles, e: string, e': string, v: string)
    ensures EdgeAt(m["anchor-" + e := v], e') == if e == e' then LenientParseInt(v) else EdgeAt(m, e')
  {
    PrefixSplit("anchor-", "anchor-" + e);
  }

  /** Writing an entry without the `anchor-` prefix changes no edge. */
  lemma EdgeAtSkip(m: Styles, k: string, v: string, e: string)
    requires !("anchor-" <= k)
    ensures EdgeAt(m[k := v], e) == EdgeAt(m, e)
  {
    assert "anchor-" <= "anchor-" + e;
  }

  lemma FlexCaseStep(w: Option<int>, m: Styles, k: string, r: Route, v: string, initial: Option<int>)
    requires k !in m && ElementRoutes(r, k)
    requires w == FlexOf(m, initial)
    ensures FlexCase(w, r, v) == FlexOf(m[k := v], initial)
  {
  }

  /** The loop fills the default, hover and disabled buckets, the anchor and the flex weight as the references say. */
  lemma {:induction false} SortResolves(styles: Styles, order: seq<string>, initial: Option<int>)
    requires Within(order, styles) && Distinct(order)
    ensures var r := SortEntries(StartSorting(initial), styles, order);
      var m := Seen(styles, order);
      && r.buckets.default == DefaultBucket(m)
      && Bucket(r.buckets.hover, m, "--hover-")
      && Bucket(r.buckets.disabled, m, "--disabled-")
      && r.anchor == ButtonAnchor(m) && r.hasAnchor == (r.anchor != EmptyAnchor)
      && r.flexWeight == FlexOf(m, initial)
  {
    SortResolvesBuckets(styles, order, initial);
    SortResolvesAnchor(styles, order, initial);
    SortResolvesFlex(styles, order, initial);
  }

  lemma {:induction false} SortResolvesBuckets(styles: Styles, order: seq<string>, initial: Option<int>)
    requires Within(order, styles) && Distinct(order)
    ensures var r := SortEntries(StartSorting(initial), styles, order);
      var m := Seen(styles, order);
      && r.buckets.default == DefaultBucket(m)
      && Bucket(r.buckets.hover, m, "--hover-")
      && Bucket(r.buckets.disabled, m, "--disabled-")
    decreases |order|
  {
    if order == [] {
      assert Seen(styles, order) == map[];
    } else {
      var init := order[..|order| - 1];
      var k := order[|order| - 1];
      var v := styles[k];
      DistinctInit(order);
      SortResolvesBuckets(styles, init, initial);
      var s := SortEntries(StartSorting(initial), styles, init);
      var m := Seen(styles, init);
      assert k !in m;
      assert Seen(styles, order) == m[k := v];
      var r := RouteOf(k);
      RouteNames(k);
      DefaultStep(s.buckets.default, m, k, r, v);
      if r.ToHover? {
        BucketPut(s.buckets.hover, m, "--hover-", k, r.prop, v);
      } else {
        BucketSkip(s.buckets.hover, m, "--hover-", k, v);
      }
      if r.ToDisabled? {
        BucketPut(s.buckets.disabled, m, "--disabled-", k, r.prop, v);
      } else {
        BucketSkip(s.buckets.disabled, m, "--disabled-", k, v);
      }
    }
  }

  lemma {:induction false} SortResolvesAnchor(styles: Styles, order: seq<string>, initial: Option<int>)
    requires Within(order, styles) && Distinct(order)
    ensures var r := SortEntries(StartSorting(initial), styles, order);
      var m := Seen(styles, order);
      r.anchor == ButtonAnchor(m) && r.hasAnchor == (r.anchor != EmptyAnchor)
    decreases |order|
  {
    if order == [] {
      assert Seen(styles, order) == map[];
    } else {
      var init := order[..|order| - 1];
      var k := order[|order| - 1];
      var v := styles[k];
      DistinctInit(order);
      SortResolvesAnchor(styles, init, initial);
      var s := SortEntries(StartSorting(initial), styles, init);
      var m := Seen(styles, init);
      assert k !in m;
      assert Seen(styles, order) == m[k := v];
      var r := RouteOf(k);
      RouteNames(k);
      EdgeStep(s.anchor, s.hasAnchor, m, k, r, v);
    }
  }

  lemma {:induction false} SortResolvesFlex(styles: Styles, order: seq<string>, initial: Option<int>)
    requires Within(order, styles) && Distinct(order)
    ensures var r := SortEntries(StartSorting(initial), styles, order);
      var m := Seen(styles, order);
      r.flexWeight == FlexOf(m, initial)
    decreases |order|
  {
    if order == [] {
      assert Seen(styles, order) == map[];
    } else {
      var init := order[..|order| - 1];
      var k := order[|order| - 1];
      var v := styles[k];
      DistinctInit(order);
      SortResolvesFlex(styles, init, initial);
      var s := SortEntries(StartSorting(initial), styles, init);
      var m := Seen(styles, init);
      assert k !in m;
      assert Seen(styles, order) == m[k := v];
      var r := RouteOf(k);
      RouteNames(k);
      FlexCaseStep(s.flexWeight, m, k, r, v, initial);
    }
  }

  /** One entry changes a pressed property only when it routes to that property. */
  lemma PressedCase(b: Buckets, k: string, v: string, p: string)
    ensures Lookup(BucketCase(b, RouteOf(k), k, v).pressed, p) ==
      if RouteOf(k) == ToPressed(p) then Some(v) else Lookup(b.pressed, p)
  {
  }

  /** Each pressed property holds the value of the last entry in iteration order that writes it. */
  lemma {:induction false} SortPressed(styles: Styles, order: seq<string>, initial: Option<int>, p: string)
    requires Within(order, styles)
    ensures SettledSomeBy(PressedRequests(styles, order, p), None, Lookup(SortEntries(StartSorting(initial), styles, order).buckets.pressed, p))
    decreases |order|
  {
    if order != [] {
      var init := order[..|order| - 1];
      var k := order[|order| - 1];
      SortPressed(styles, init, initial, p);
      var s := SortEntries(StartSorting(initial), styles, init);
      PressedRequestsSnoc(styles, order, p);
      var x := if RouteOf(k) == ToPressed(p) then Some(styles[k]) else None;
      var s' := SortEntry(s, k, styles[k]);
      assert SortEntries(StartSorting(initial), styles, order) == s';
      PressedCase(s.buckets, k, styles[k], p);
      SettledSomeSnoc(PressedRequests(styles, init, p), x, None, Lookup(s.buckets.pressed, p));
    }
  }

  /** A bucket is handed to the generator only when it is not empty; an empty one is passed as null. */
  function NonEmpty(b: Styles): (r: Option<Styles>)
    ensures Gen.Present(r) <==> b != map[]
    ensures r.Some? ==> r.value == b
  {
    if b == map[] then None else Some(b)
  }

  /** The literal `applyButtonStyles` generates from the buckets. */
  function ButtonDsl(b: Buckets): (r: Option<string>)
    ensures r.Some? <==> b.default != map[]
  {
    Gen.GenerateTextButtonStyleDsl(NonEmpty(b.default), NonEmpty(b.hover), NonEmpty(b.pressed), NonEmpty(b.disabled))
  }

  /** The buckets the loop fills for `styles` in iteration order `order`. */
  function SortButtonStyles(styles: Styles, order: seq<string>): (b: Buckets)
    requires Enumerates(order, styles)
    ensures b.default == DefaultBucket(styles)
    ensures Bucket(b.hover, styles, "--hover-")
    ensures Bucket(b.disabled, styles, "--disabled-")
    ensures Within(order, styles)
    ensures forall p :: SettledSomeBy(PressedRequests(styles, order, p), None, Lookup(b.pressed, p))
  {
    SeenAll(styles, order);
    SortResolves(styles, order, None);
    var b := SortEntries(StartSorting(None), styles, order).buckets;
    forall p ensures SettledSomeBy(PressedRequests(styles, order, p), None, Lookup(b.pressed, p)) {
      SortPressed(styles, order, None, p);
    }
    b
  }

  /**
   `applyButtonStyles`. The anchor is attached only when an edge resolved, and is then
   the lenient reference anchor; flex weight follows a well-formed `flex-weight`; the
   style hooks are added exactly when some key landed in the default bucket; visibility,
   layout mode, style and everything else stay as they were.
   */
  function ApplyButtonStyles(el: Element, styles: Styles, order: seq<string>): (r: Element)
    requires Enumerates(order, styles)
    ensures r.anchor == if ButtonAnchor(styles) != EmptyAnchor then Some(ButtonAnchor(styles)) else el.anchor
    ensures r.flexWeight == FlexOf(styles, el.flexWeight)
    ensures DefaultBucket(styles) == map[] ==> r.before == el.before && r.after == el.after
    ensures DefaultBucket(styles) != map[] ==>
      && ButtonDsl(SortButtonStyles(styles, order)).Some?
      && r.before == el.before + [DefineStyle(ButtonDsl(SortButtonStyles(styles, order)).value)]
      && r.after == el.after + [UseStyle]
    ensures r == el.(anchor := r.anchor, flexWeight := r.flexWeight, before := r.before, after := r.after)
  {
    SeenAll(styles, order);
    SortResolvesAnchor(styles, order, el.flexWeight);
    SortResolvesFlex(styles, order, el.flexWeight);
    var s := SortEntries(StartSorting(el.flexWeight), styles, order);
    var b := SortButtonStyles(styles, order);
    SortSameBuckets(styles, order, el.flexWeight, None);
    assert s.buckets == b;
    var withAnchor := if s.hasAnchor then el.(anchor := Some(s.anchor)) else el;
    var sized := withAnchor.(flexWeight := s.flexWeight);
    var dsl := ButtonDsl(s.buckets);
    if dsl.Some? then sized.(before := sized.before + [DefineStyle(dsl.value)], after := sized.after + [UseStyle])
    else sized
  }

  /** The buckets do not depend on the flex weight the loop starts from. */
  lemma {:induction false} SortSameBuckets(styles: Styles, order: seq<string>, w: Option<int>, w': Option<int>)
    requires Within(order, styles)
    ensures var s, s' := SortEntries(StartSorting(w), styles, order), SortEntries(StartSorting(w'), styles, order);
      s.buckets == s'.buckets && s.anchor == s'.anchor && s.hasAnchor == s'.hasAnchor
    decreases |order|
  {
    if order != [] {
      SortSameBuckets(styles, order[..|order| - 1], w, w');
    }
  }

  // What the pressed bucket holds, without the iteration order where it does not matter.

  /** Exactly the two spellings of a pressed property write it. */
  lemma PressedWriters(p: string, k: string)
    ensures RouteOf(k) == ToPressed(p) <==> k == "--pressed-" + p || k == "--active-" + p
  {
    PressedRoutes(p);
    RoutePrefixes(k);
  }

  /** The entry at `i` writes `p` and no later entry does, so `p` holds its value. */
  lemma PressedLastWriter(styles: Styles, order: seq<string>, p: string, i: int)
    requires Enumerates(order, styles)
    requires 0 <= i < |order| && RouteOf(order[i]) == ToPressed(p)
    requires forall j :: i < j < |order| ==> RouteOf(order[j]) != ToPressed(p)
    ensures Within(order, styles)
    ensures var pressed := SortButtonStyles(styles, order).pressed;
      p in pressed && pressed[p] == styles[order[i]]
  {
    var rs := PressedRequests(styles, order, p);
    assert LastRequest(rs, i);
  }

  /**
   `--pressed-p` and `--active-p` both fill property `p` of the pressed bucket: it is
   present when either key is, takes the value of the only one present, and when both
   are present takes the value of the one iterated later.
   */
  lemma PressedValue(styles: Styles, order: seq<string>, p: string)
    requires Enumerates(order, styles)
    ensures var pressed := SortButtonStyles(styles, order).pressed;
      var a, b := "--pressed-" + p, "--active-" + p;
      && (p in pressed <==> a in styles || b in styles)
      && (a in styles && b !in styles ==> pressed[p] == styles[a])
      && (b in styles && a !in styles ==> pressed[p] == styles[b])
  {
    var pressed := SortButtonStyles(styles, order).pressed;
    var a, b := "--pressed-" + p, "--active-" + p;
    PressedRoutes(p);
    if a in styles {
      var i := PositionOf(styles, order, a);
      if b in styles {
        var j := PositionOf(styles, order, b);
        var last := if i < j then j else i;
        OnlyWritersAfter(styles, order, p, i, j, last);
        PressedLastWriter(styles, order, p, last);
      } else {
        OnlyWritersAfter(styles, order, p, i, i, i);
        PressedLastWriter(styles, order, p, i);
      }
    } else if b in styles {
      var j := PositionOf(styles, order, b);
      OnlyWritersAfter(styles, order, p, j, j, j);
      PressedLastWriter(styles, order, p, j);
    } else {
      var rs := PressedRequests(styles, order, p);
      forall i | 0 <= i < |rs| ensures rs[i].None? {
        PressedWriters(p, order[i]);
      }
    }
  }

  /**
   When `--pressed-p` is at `i` and `--active-p` at `j` (or one of them is absent and
   `i == j`), no entry after the later of the two writes `p`.
   */
  lemma OnlyWritersAfter(styles: Styles, order: seq<string>, p: string, i: int, j: int, last: int)
    requires Enumerates(order, styles)
    requires 0 <= i < |order| && 0 <= j < |order| && last == (if i < j then j else i)
    requires order[i] == "--pressed-" + p || order[i] == "--active-" + p
    requires order[j] == "--pressed-" + p || order[j] == "--active-" + p
    requires forall k :: k in styles && (k == "--pressed-" + p || k == "--active-" + p) ==> k == order[i] || k == order[j]
    ensures forall t :: last < t < |order| ==> RouteOf(order[t]) != ToPressed(p)
  {
    forall t | last < t < |order| ensures RouteOf(order[t]) != ToPressed(p) {
      PressedWriters(p, order[t]);
      assert order[t] in styles;
    }
  }

  /** When both spellings are present, the one later in iteration order decides the pressed value. */
  lemma PressedLaterWins(styles: Styles, order: seq<string>, p: string, i: int, j: int)
    requires Enumerates(order, styles)
    requires 0 <= i < j < |order|
    requires {order[i], order[j]} == {"--pressed-" + p, "--active-" + p}
    ensures var pressed := SortButtonStyles(styles, order).pressed;
      p in pressed && pressed[p] == styles[order[j]]
  {
    var a, b := "--pressed-" + p, "--active-" + p;
    assert order[i] in {a, b} && order[j] in {a, b};
    PressedRoutes(p);
    OnlyWritersAfter(styles, order, p, i, j, j);
    PressedLastWriter(styles, order, p, j);
  }

  /** A map with no pseudo-state entry leaves the hover, pressed and disabled buckets empty. */
  lemma NoPseudoNoStates(styles: Styles, order: seq<string>)
    requires Enumerates(order, styles)
    requires forall k :: k in styles ==> !RouteOf(k).ToHover? && !RouteOf(k).ToPressed? && !RouteOf(k).ToDisabled?
    ensures var b := SortButtonStyles(styles, order);
      b.hover == map[] && b.pressed == map[] && b.disabled == map[]
  {
    var b := SortButtonStyles(styles, order);
    forall p ensures p !in b.hover && p !in b.pressed && p !in b.disabled {
      RoutePrefixes("--hover-" + p);
      RoutePrefixes("--disabled-" + p);
      assert "--hover-" <= "--hover-" + p && "--disabled-" <= "--disabled-" + p;
      PressedRoutes(p);
      PressedValue(styles, order, p);
    }
  }

  /**
   Keys that reach the default bucket but name no property the generator reads (the
   full `anchor`, say) still hoist a style, with an empty Default section.
   */
  lemma UnreadDefaultStillHoists(el: Element, styles: Styles, order: seq<string>)
    requires Enumerates(order, styles)
    requires forall k :: k in styles ==> RouteOf(k) == ToDefault && !Gen.ReadsKey(k)
    requires styles != map[]
    ensures ApplyButtonStyles(el, styles, order).before == el.before + [DefineStyle("TextButtonStyle(Default: ())")]
  {
    NoPseudoNoStates(styles, order);
    var b := SortButtonStyles(styles, order);
    assert b.default == styles;
    Gen.UnreadDefaultLiteral(styles);
    assert ButtonDsl(b) == Gen.GenerateTextButtonStyleDsl(Some(styles), None, None, None);
  }

  /** The full `anchor` key on a button sets no anchor: it is taken for a default style property. */
  lemma FullAnchorOnButton(el: Element, v: string)
    ensures var r := ApplyButtonStyles(el, map["anchor" := v], ["anchor"]);
      r.anchor == el.anchor && r.before == el.before + [DefineStyle("TextButtonStyle(Default: ())")]
  {
    var styles := map["anchor" := v];
    assert RouteOf("anchor") == ToDefault by {
      assert !("anchor-" <= "anchor");
    }
    assert ButtonAnchor(styles) == EmptyAnchor by {
      forall e ensures "anchor-" + e !in styles {
        assert |"anchor-" + e| >= 7;
      }
    }
    assert "anchor" in styles;
    UnreadDefaultStillHoists(el, styles, ["anchor"]);
  }

  /** A button whose map has only pseudo-state entries gets no style hooks: the generator needs a Default state. */
  lemma PseudoOnlyNoHooks(el: Element, styles: Styles, order: seq<string>)
    requires Enumerates(order, styles)
    requires forall k :: k in styles ==> RouteOf(k).ToHover? || RouteOf(k).ToPressed? || RouteOf(k).ToDisabled?
    ensures var r := ApplyButtonStyles(el, styles, order);
      r.before == el.before && r.after == el.after
  {
    var d := DefaultBucket(styles);
    assert forall k :: k !in d;
    assert d.Keys == {};
    assert d == map[];
  }
}
