/**
 HyUInterface: the part shared by pages and HUDs. Building appends the base file,
 runs the edit callbacks, then, for each top-level element, records the initial
 values of its subtree in the value cache and emits the element. A data event is
 routed down the whole element tree: listeners of the element whose effective id
 the event targets are called, and a value change is parsed, cached under the
 element's user id and handed to the listener.
 */
module HyUInterface {
  import opened Wrappers
  import opened Elements
  import opened Commands
  import StyleAttribute

  /** The value cache `elementValues`, keyed by user id. */
  type Values = map<string, Value>

  /** The interface state: base file, top-level elements, edit callbacks and value cache. */
  datatype Interface = Interface(
    uiFile: Option<string>,
    elements: seq<Element>,
    editCallbacks: Option<seq<seq<Command>>>,
    elementValues: Values)

  /** `getValue(id)`: the cached value of the element with user id `id`, if any. */
  function GetValue(ui: Interface, id: string): (r: Option<Value>)
    ensures r.Some? <==> id in ui.elementValues
    ensures r.Some? ==> r.value == ui.elementValues[id]
  {
    Lookup(ui.elementValues, id)
  }

  // ---------------------------------------------------------------------------
  // Capturing initial values
  // ---------------------------------------------------------------------------

  /** The first half of `captureInitialValues`: the element's own initial value under its user id. */
  function CaptureOwn(m: Values, e: Element): Values {
    if e.userId.Some? && e.initialValue.Some? then m[e.userId.value := e.initialValue.value] else m
  }

  /** `captureInitialValues` applied to each element of `es` in turn, each before its children. */
  function CaptureForest(m: Values, es: seq<Element>): Values
    decreases es
  {
    if es == [] then m
    else CaptureForest(CaptureForest(CaptureOwn(m, es[0]), es[0].children), es[1..])
  }

  /** The same writes made one node at a time along a flat list of nodes. */
  function CaptureAlong(m: Values, ns: seq<Element>): Values
    decreases |ns|
  {
    if ns == [] then m else CaptureAlong(CaptureOwn(m, ns[0]), ns[1..])
  }

  lemma {:induction false} CaptureAlongAppend(m: Values, a: seq<Element>, b: seq<Element>)
    ensures CaptureAlong(m, a + b) == CaptureAlong(CaptureAlong(m, a), b)
    decreases |a|
  {
    if a != [] {
      assert (a + b)[0] == a[0];
      assert (a + b)[1..] == a[1..] + b;
      CaptureAlongAppend(CaptureOwn(m, a[0]), a[1..], b);
    } else {
      assert a + b == b;
    }
  }

  /** The recursive capture writes the nodes of the forest in pre-order. */
  lemma {:induction false} CaptureForestPreOrder(m: Values, es: seq<Element>)
    ensures CaptureForest(m, es) == CaptureAlong(m, PreOrder(es))
    decreases es
  {
    if es != [] {
      var e := es[0];
      var m1 := CaptureOwn(m, e);
      var below := PreOrder(e.children);
      var rest := PreOrder(es[1..]);
      CaptureForestPreOrder(m1, e.children);
      CaptureForestPreOrder(CaptureForest(m1, e.children), es[1..]);
      CaptureAlongAppend(m1, below, rest);
      assert PreOrder(es) == [e] + (below + rest);
      assert ([e] + (below + rest))[1..] == below + rest;
    }
  }

  /** What each listed node asks the cache to hold under `k`. */
  function InitialRequests(ns: seq<Element>, k: string): (rs: seq<Option<Value>>)
    ensures |rs| == |ns|
    ensures forall i :: 0 <= i < |ns| ==> rs[i] == if ns[i].userId == Some(k) then ns[i].initialValue else None
  {
    seq(|ns|, i requires 0 <= i < |ns| => if ns[i].userId == Some(k) then ns[i].initialValue else None)
  }

  /** Along a node list, the cache holds under `k` the last initial value requested for `k`. */
  lemma {:induction false} CaptureAlongSettles(m: Values, ns: seq<Element>, k: string)
    ensures StyleAttribute.SettledSomeBy(InitialRequests(ns, k), Lookup(m, k), Lookup(CaptureAlong(m, ns), k))
    decreases |ns|
  {
    if ns != [] {
      var init := ns[..|ns| - 1];
      var last := ns[|ns| - 1];
      assert ns == init + [last];
      CaptureAlongSettles(m, init, k);
      CaptureAlongAppend(m, init, [last]);
      var before := CaptureAlong(m, init);
      assert CaptureAlong(before, [last]) == CaptureOwn(before, last);
      var rs := InitialRequests(ns, k);
      var x := rs[|ns| - 1];
      assert rs == InitialRequests(init, k) + [x] by {
        forall i | 0 <= i < |init| ensures rs[i] == InitialRequests(init, k)[i] {
          assert ns[i] == init[i];
        }
      }
      StyleAttribute.SettledSomeSnoc(InitialRequests(init, k), x, Lookup(m, k), Lookup(before, k));
      assert Lookup(CaptureOwn(before, last), k) == if x.Some? then Some(x.value) else Lookup(before, k);
    }
  }

  // ---------------------------------------------------------------------------
  // build / buildFromCommandBuilder
  // ---------------------------------------------------------------------------

  /** The edit callbacks run in order, each appending its fragment to the builder. */
  function RunCallbacks(cmds: seq<Command>, callbacks: seq<seq<Command>>): (r: seq<Command>)
    ensures r == cmds + Flatten(callbacks)
    decreases |callbacks|
  {
    if callbacks == [] then cmds
    else
      var r := RunCallbacks(cmds + callbacks[0], callbacks[1..]);
      assert r == cmds + (callbacks[0] + Flatten(callbacks[1..]));
      r
  }

  /** Every top-level element's emission, in order. */
  function EmitAll(es: seq<Element>, emit: Element -> seq<Command>): seq<Command> {
    Flatten(seq(|es|, i requires 0 <= i < |es| => emit(es[i])))
  }

  lemma EmitAllCons(es: seq<Element>, emit: Element -> seq<Command>)
    requires es != []
    ensures EmitAll(es, emit) == emit(es[0]) + EmitAll(es[1..], emit)
  {
    var ss := seq(|es|, i requires 0 <= i < |es| => emit(es[i]));
    assert ss[1..] == seq(|es[1..]|, i requires 0 <= i < |es[1..]| => emit(es[1..][i]));
  }

  /** The loop over top-level elements: capture each subtree's initial values, then emit the element. */
  function BuildElements(m: Values, cmds: seq<Command>, es: seq<Element>, emit: Element -> seq<Command>): (r: (Values, seq<Command>))
    ensures r.0 == CaptureForest(m, es)
    ensures r.1 == cmds + EmitAll(es, emit)
    decreases |es|
  {
    if es == [] then (m, cmds)
    else
      var r := BuildElements(CaptureForest(m, [es[0]]), cmds + emit(es[0]), es[1..], emit);
      assert [es[0]][1..] == [];
      assert CaptureForest(m, [es[0]]) == CaptureForest(CaptureOwn(m, es[0]), es[0].children);
      EmitAllCons(es, emit);
      assert r.1 == cmds + (emit(es[0]) + EmitAll(es[1..], emit));
      r
  }

  /** The base-file command, present when the interface names a file. */
  function FileCommands(uiFile: Option<string>): (r: seq<Command>)
    ensures uiFile.None? <==> r == []
    ensures uiFile.Some? ==> r == [Append(uiFile.value)]
  {
    if uiFile.Some? then [Append(uiFile.value)] else []
  }

  /**
   `build` and `buildFromCommandBuilder`: the commands appended (base file, then the
   callbacks' fragments, then each element's emission) and the interface afterwards,
   whose cache has been cleared and refilled with the initial values of the tree.
   */
  function Build(ui: Interface, emit: Element -> seq<Command>): (r: (Interface, seq<Command>))
    ensures r.0 == ui.(elementValues := r.0.elementValues)
    ensures r.1 == FileCommands(ui.uiFile) + Flatten(ui.editCallbacks.GetOr([])) + EmitAll(ui.elements, emit)
    ensures r.0.elementValues == CaptureAlong(map[], PreOrder(ui.elements))
    ensures forall k :: StyleAttribute.SettledSomeBy(InitialRequests(PreOrder(ui.elements), k), None, Lookup(r.0.elementValues, k))
  {
    var base := if ui.uiFile.Some? then [Append(ui.uiFile.value)] else [];
    var edited := if ui.editCallbacks.Some? then RunCallbacks(base, ui.editCallbacks.value) else base;
    var built := BuildElements(map[], edited, ui.elements, emit);
    CaptureForestPreOrder(map[], ui.elements);
    forall k ensures StyleAttribute.SettledSomeBy(InitialRequests(PreOrder(ui.elements), k), None, Lookup(built.0, k)) {
      CaptureAlongSettles(map[], PreOrder(ui.elements), k);
    }
    (ui.(elementValues := built.0), built.1)
  }

  /** After a build, an id is cached exactly when some element of the tree has it and an initial value. */
  lemma BuildCachesInitialValues(ui: Interface, emit: Element -> seq<Command>, k: string)
    ensures k in Build(ui, emit).0.elementValues <==>
      exists n :: n in PreOrder(ui.elements) && n.userId == Some(k) && n.initialValue.Some?
  {
    var ns := PreOrder(ui.elements);
    var rs := InitialRequests(ns, k);
    var cur := Lookup(Build(ui, emit).0.elementValues, k);
    assert StyleAttribute.SettledSomeBy(rs, None, cur);
    if exists n :: n in ns && n.userId == Some(k) && n.initialValue.Some? {
      var n :| n in ns && n.userId == Some(k) && n.initialValue.Some?;
      var i :| 0 <= i < |ns| && ns[i] == n;
      StyleAttribute.LastRequestExists(rs, i);
    } else {
      forall i | 0 <= i < |rs| ensures rs[i].None? {
        assert ns[i] in ns;
      }
    }
  }

  /** With one element of the tree initialising `k`, the cache holds its initial value. */
  lemma BuildSingleInitialValue(ui: Interface, emit: Element -> seq<Command>, k: string, i: int)
    requires 0 <= i < |PreOrder(ui.elements)|
    requires PreOrder(ui.elements)[i].userId == Some(k)
    requires forall j :: 0 <= j < |PreOrder(ui.elements)| && j != i ==> PreOrder(ui.elements)[j].userId != Some(k)
    ensures GetValue(Build(ui, emit).0, k) == PreOrder(ui.elements)[i].initialValue
  {
    var rs := InitialRequests(PreOrder(ui.elements), k);
    StyleAttribute.SettledSomeByOnly(rs, None, Lookup(Build(ui, emit).0.elementValues, k), i);
  }

  // ---------------------------------------------------------------------------
  // Routing data events
  // ---------------------------------------------------------------------------

  /** The event actions the router compares against (UIEventActions), and every other action. */
  datatype Action = ButtonClicked | ValueChangedAction | OtherAction

  /** DynamicPageData: the action and the named values of an event. */
  datatype PageData = PageData(action: Action, values: map<string, string>)

  /** A listener call: which callback, and the value it receives (null for a click). */
  datatype Invocation = Invocation(callback: nat, payload: Option<Value>)

  /** The state the router threads through the tree: the value cache and the calls made so far. */
  datatype Routing = Routing(values: Values, trace: seq<Invocation>)

  /** The event is addressed to `e`: its effective id equals the event's "Target" value. */
  predicate Targets(data: PageData, e: Element) {
    e.effectiveId.Some? && Lookup(data.values, "Target") == e.effectiveId
  }

  /**
   The value a value-change listener of `e` receives: the "RefValue" or "Value" entry,
   as the element reads it, parsed by the element; null unless the event is a value
   change addressed to `e` carrying a parsable entry.
   */
  function FinalValue(data: PageData, e: Element, parse: (Element, string) -> Option<Value>): (r: Option<Value>)
    ensures r.Some? ==> data.action == ValueChangedAction && Targets(data, e)
    ensures r.Some? ==> var raw := Lookup(data.values, if e.usesRef then "RefValue" else "Value");
      raw.Some? && r == parse(e, raw.value)
  {
    if data.action == ValueChangedAction && Targets(data, e) then
      var raw := Lookup(data.values, if e.usesRef then "RefValue" else "Value");
      if raw.Some? then parse(e, raw.value) else None
    else None
  }

  /** One listener of an element that has an effective id reacting to the event. */
  function OnListener(st: Routing, e: Element, l: Listener, data: PageData, parse: (Element, string) -> Option<Value>): (r: Routing)
    requires e.effectiveId.Some?
    ensures st.trace <= r.trace && |r.trace| <= |st.trace| + 1
    ensures |r.trace| > |st.trace| ==> Targets(data, e) && r.trace[|st.trace|].callback == l.callback
    ensures |r.trace| > |st.trace| && r.trace[|st.trace|].payload.None? ==>
      l.binding == Activating && data.action == ButtonClicked
    ensures |r.trace| > |st.trace| && r.trace[|st.trace|].payload.Some? ==>
      l.binding == Binding.ValueChanged && r.trace[|st.trace|].payload == FinalValue(data, e, parse)
    ensures r.values != st.values ==>
      (|r.trace| > |st.trace| && e.userId.Some? && r.trace[|st.trace|].payload.Some? &&
       r.values == st.values[e.userId.value := r.trace[|st.trace|].payload.value])
    ensures |r.trace| > |st.trace| && r.trace[|st.trace|].payload.Some? && e.userId.Some? ==>
      Lookup(r.values, e.userId.value) == r.trace[|st.trace|].payload
  {
    var target := Lookup(data.values, "Target");
    if l.binding == Activating && data.action == ButtonClicked then
      if e.effectiveId == target then st.(trace := st.trace + [Invocation(l.callback, None)]) else st
    else if l.binding == Binding.ValueChanged then
      var final := FinalValue(data, e, parse);
      var values := if final.Some? && e.userId.Some? then st.values[e.userId.value := final.value] else st.values;
      Routing(values, if final.Some? then st.trace + [Invocation(l.callback, final)] else st.trace)
    else st
  }

  /** The listeners of one element, in order. */
  function OnListeners(st: Routing, e: Element, ls: seq<Listener>, data: PageData, parse: (Element, string) -> Option<Value>): Routing
    requires e.effectiveId.Some?
    decreases |ls|
  {
    if ls == [] then st else OnListeners(OnListener(st, e, ls[0], data, parse), e, ls[1..], data, parse)
  }

  /** The first half of `handleElementEvents`: an element without effective id ignores the event. */
  function RouteOwn(st: Routing, e: Element, data: PageData, parse: (Element, string) -> Option<Value>): Routing {
    if e.effectiveId.Some? then OnListeners(st, e, e.listeners, data, parse) else st
  }

  /** `handleElementEvents` applied to each element of `es` in turn, each before its children. */
  function RouteForest(st: Routing, es: seq<Element>, data: PageData, parse: (Element, string) -> Option<Value>): Routing
    decreases es
  {
    if es == [] then st
    else RouteForest(RouteForest(RouteOwn(st, es[0], data, parse), es[0].children, data, parse), es[1..], data, parse)
  }

  /** The same routing made one node at a time along a flat list of nodes. */
  function RouteAlong(st: Routing, ns: seq<Element>, data: PageData, parse: (Element, string) -> Option<Value>): Routing
    decreases |ns|
  {
    if ns == [] then st else RouteAlong(RouteOwn(st, ns[0], data, parse), ns[1..], data, parse)
  }

  lemma {:induction false} RouteAlongAppend(st: Routing, a: seq<Element>, b: seq<Element>, data: PageData, parse: (Element, string) -> Option<Value>)
    ensures RouteAlong(st, a + b, data, parse) == RouteAlong(RouteAlong(st, a, data, parse), b, data, parse)
    decreases |a|
  {
    if a != [] {
      assert (a + b)[0] == a[0];
      assert (a + b)[1..] == a[1..] + b;
      RouteAlongAppend(RouteOwn(st, a[0], data, parse), a[1..], b, data, parse);
    } else {
      assert a + b == b;
    }
  }

  /** The recursive router visits every node of the forest, in pre-order. */
  lemma {:induction false} RouteForestPreOrder(st: Routing, es: seq<Element>, data: PageData, parse: (Element, string) -> Option<Value>)
    ensures RouteForest(st, es, data, parse) == RouteAlong(st, PreOrder(es), data, parse)
    decreases es
  {
    if es != [] {
      var e := es[0];
      var st1 := RouteOwn(st, e, data, parse);
      var below := PreOrder(e.children);
      var rest := PreOrder(es[1..]);
      RouteForestPreOrder(st1, e.children, data, parse);
      RouteForestPreOrder(RouteForest(st1, e.children, data, parse), es[1..], data, parse);
      RouteAlongAppend(st1, below, rest, data, parse);
      assert PreOrder(es) == [e] + (below + rest);
      assert ([e] + (below + rest))[1..] == below + rest;
    }
  }

  /** `e` has a listener `l` that answers with `inv`: the calls a routed event may produce. */
  predicate Answers(data: PageData, e: Element, l: Listener, inv: Invocation, parse: (Element, string) -> Option<Value>) {
    && Targets(data, e)
    && l.callback == inv.callback
    && (inv.payload.None? ==> l.binding == Activating && data.action == ButtonClicked)
    && (inv.payload.Some? ==> l.binding == Binding.ValueChanged && inv.payload == FinalValue(data, e, parse))
  }

  /** What one listener of `e` is called with, independently of the cache. */
  function Fired(data: PageData, e: Element, l: Listener, parse: (Element, string) -> Option<Value>): (r: seq<Invocation>)
    ensures |r| <= 1
    ensures r != [] ==> Answers(data, e, l, r[0], parse)
    ensures r == [] <==>
      (!Targets(data, e) ||
       !((l.binding == Activating && data.action == ButtonClicked) ||
         (l.binding == Binding.ValueChanged && FinalValue(data, e, parse).Some?)))
  {
    if !Targets(data, e) then []
    else if l.binding == Activating && data.action == ButtonClicked then [Invocation(l.callback, None)]
    else if l.binding == Binding.ValueChanged && FinalValue(data, e, parse).Some? then [Invocation(l.callback, FinalValue(data, e, parse))]
    else []
  }

  /** The calls the listeners `ls` of `e` produce, in listener order. */
  function FiredAll(data: PageData, e: Element, ls: seq<Listener>, parse: (Element, string) -> Option<Value>): seq<Invocation>
    decreases |ls|
  {
    if ls == [] then [] else Fired(data, e, ls[0], parse) + FiredAll(data, e, ls[1..], parse)
  }

  /** Every call the listeners of `e` produce answers one of those listeners. */
  lemma {:induction false} FiredAllAnswers(data: PageData, e: Element, ls: seq<Listener>, parse: (Element, string) -> Option<Value>, j: int)
    requires 0 <= j < |FiredAll(data, e, ls, parse)|
    ensures exists l :: l in ls && Answers(data, e, l, FiredAll(data, e, ls, parse)[j], parse)
    decreases |ls|
  {
    var head := Fired(data, e, ls[0], parse);
    var tail := FiredAll(data, e, ls[1..], parse);
    assert FiredAll(data, e, ls, parse) == head + tail;
    if j < |head| {
      assert ls[0] in ls;
      assert (head + tail)[j] == head[j];
    } else {
      FiredAllAnswers(data, e, ls[1..], parse, j - |head|);
      var l :| l in ls[1..] && Answers(data, e, l, tail[j - |head|], parse);
      assert l in ls;
      assert (head + tail)[j] == tail[j - |head|];
    }
  }

  /** The calls routing produces at one node. */
  function NodeInvocations(data: PageData, e: Element, parse: (Element, string) -> Option<Value>): seq<Invocation> {
    if e.effectiveId.Some? then FiredAll(data, e, e.listeners, parse) else []
  }

  /** The calls routing produces along a node list: every node's calls, node after node. */
  function Invocations(data: PageData, ns: seq<Element>, parse: (Element, string) -> Option<Value>): seq<Invocation>
    decreases |ns|
  {
    if ns == [] then [] else NodeInvocations(data, ns[0], parse) + Invocations(data, ns[1..], parse)
  }

  /** Every call produced along a node list answers a listener of one of the nodes. */
  lemma {:induction false} InvocationsAnswer(data: PageData, ns: seq<Element>, parse: (Element, string) -> Option<Value>, j: int)
    requires 0 <= j < |Invocations(data, ns, parse)|
    ensures exists i, l :: 0 <= i < |ns| && l in ns[i].listeners && Answers(data, ns[i], l, Invocations(data, ns, parse)[j], parse)
    decreases |ns|
  {
    var head := NodeInvocations(data, ns[0], parse);
    var tail := Invocations(data, ns[1..], parse);
    var all := Invocations(data, ns, parse);
    assert all == head + tail;
    if j < |head| {
      assert ns[0].effectiveId.Some?;
      assert head == FiredAll(data, ns[0], ns[0].listeners, parse);
      FiredAllAnswers(data, ns[0], ns[0].listeners, parse, j);
      var l :| l in ns[0].listeners && Answers(data, ns[0], l, head[j], parse);
      assert all[j] == head[j];
      assert l in ns[0].listeners && Answers(data, ns[0], l, all[j], parse);
    } else {
      InvocationsAnswer(data, ns[1..], parse, j - |head|);
      var i, l :| 0 <= i < |ns[1..]| && l in ns[1..][i].listeners && Answers(data, ns[1..][i], l, tail[j - |head|], parse);
      assert ns[1..][i] == ns[i + 1];
      assert all[j] == tail[j - |head|];
      assert 0 <= i + 1 < |ns| && l in ns[i + 1].listeners && Answers(data, ns[i + 1], l, all[j], parse);
    }
  }

  /** Whether `ls` holds a value-change listener. */
  predicate HasValueListener(ls: seq<Listener>) {
    exists i :: 0 <= i < |ls| && ls[i].binding == Binding.ValueChanged
  }

  /** What one node writes into the cache under `k` while routing. */
  function NodeWrite(data: PageData, e: Element, parse: (Element, string) -> Option<Value>, k: string): Option<Value> {
    if e.userId == Some(k) && HasValueListener(e.listeners) then FinalValue(data, e, parse) else None
  }

  /** What each listed node writes into the cache under `k`. */
  function WriteRequests(data: PageData, ns: seq<Element>, parse: (Element, string) -> Option<Value>, k: string): (rs: seq<Option<Value>>)
    ensures |rs| == |ns|
    ensures forall i :: 0 <= i < |ns| ==> rs[i] == NodeWrite(data, ns[i], parse, k)
  {
    seq(|ns|, i requires 0 <= i < |ns| => NodeWrite(data, ns[i], parse, k))
  }

  lemma HasValueListenerCons(ls: seq<Listener>)
    requires ls != []
    ensures HasValueListener(ls) <==> ls[0].binding == Binding.ValueChanged || HasValueListener(ls[1..])
  {
    if HasValueListener(ls[1..]) {
      var i :| 0 <= i < |ls[1..]| && ls[1..][i].binding == Binding.ValueChanged;
      assert ls[i + 1] == ls[1..][i];
    }
    if HasValueListener(ls) && ls[0].binding != Binding.ValueChanged {
      var i :| 0 <= i < |ls| && ls[i].binding == Binding.ValueChanged;
      assert ls[1..][i - 1] == ls[i];
    }
  }

  /** The listeners of one node append exactly their calls. */
  lemma {:induction false} OnListenersTrace(st: Routing, e: Element, ls: seq<Listener>, data: PageData, parse: (Element, string) -> Option<Value>)
    requires e.effectiveId.Some?
    ensures OnListeners(st, e, ls, data, parse).trace == st.trace + FiredAll(data, e, ls, parse)
    decreases |ls|
  {
    if ls != [] {
      var st1 := OnListener(st, e, ls[0], data, parse);
      OnListenersTrace(st1, e, ls[1..], data, parse);
      assert st1.trace == st.trace + Fired(data, e, ls[0], parse);
    }
  }

  /** The value the node's event carries, written under its user id by any value-change listener. */
  function NodeValues(m: Values, e: Element, ls: seq<Listener>, data: PageData, parse: (Element, string) -> Option<Value>): Values {
    if e.userId.Some? && HasValueListener(ls) && FinalValue(data, e, parse).Some?
    then m[e.userId.value := FinalValue(data, e, parse).value] else m
  }

  /** The listeners of one node write the node's value, if any, and nothing else. */
  lemma {:induction false} OnListenersValues(st: Routing, e: Element, ls: seq<Listener>, data: PageData, parse: (Element, string) -> Option<Value>)
    requires e.effectiveId.Some?
    ensures OnListeners(st, e, ls, data, parse).values == NodeValues(st.values, e, ls, data, parse)
    decreases |ls|
  {
    if ls != [] {
      var st1 := OnListener(st, e, ls[0], data, parse);
      OnListenersValues(st1, e, ls[1..], data, parse);
      HasValueListenerCons(ls);
      assert st1.values == NodeValues(st.values, e, [ls[0]], data, parse) by {
        assert [ls[0]][0] == ls[0];
        if ls[0].binding != Binding.ValueChanged {
          assert !HasValueListener([ls[0]]);
        }
      }
    }
  }

  lemma RouteOwnTrace(st: Routing, e: Element, data: PageData, parse: (Element, string) -> Option<Value>)
    ensures RouteOwn(st, e, data, parse).trace == st.trace + NodeInvocations(data, e, parse)
  {
    if e.effectiveId.Some? {
      OnListenersTrace(st, e, e.listeners, data, parse);
    }
  }

  lemma RouteOwnValues(st: Routing, e: Element, data: PageData, parse: (Element, string) -> Option<Value>, k: string)
    ensures Lookup(RouteOwn(st, e, data, parse).values, k) ==
      if NodeWrite(data, e, parse, k).Some? then NodeWrite(data, e, parse, k) else Lookup(st.values, k)
  {
    if e.effectiveId.Some? {
      OnListenersValues(st, e, e.listeners, data, parse);
    }
  }

  /** Along a node list the cache settles on the last value written under each id. */
  lemma {:induction false} RouteAlongValues(st: Routing, ns: seq<Element>, data: PageData, parse: (Element, string) -> Option<Value>, k: string)
    ensures StyleAttribute.SettledSomeBy(WriteRequests(data, ns, parse, k), Lookup(st.values, k), Lookup(RouteAlong(st, ns, data, parse).values, k))
    decreases |ns|
  {
    if ns != [] {
      var init := ns[..|ns| - 1];
      var last := ns[|ns| - 1];
      assert ns == init + [last];
      RouteAlongValues(st, init, data, parse, k);
      RouteAlongAppend(st, init, [last], data, parse);
      var before := RouteAlong(st, init, data, parse);
      var after := RouteOwn(before, last, data, parse);
      assert RouteAlong(before, [last], data, parse) == after;
      RouteOwnValues(before, last, data, parse, k);
      var rs := WriteRequests(data, ns, parse, k);
      var x := rs[|ns| - 1];
      assert rs == WriteRequests(data, init, parse, k) + [x] by {
        forall i | 0 <= i < |init| ensures rs[i] == WriteRequests(data, init, parse, k)[i] {
          assert ns[i] == init[i];
        }
      }
      StyleAttribute.SettledSomeSnoc(WriteRequests(data, init, parse, k), x, Lookup(st.values, k), Lookup(before.values, k));
      assert Lookup(after.values, k) == if x.Some? then Some(x.value) else Lookup(before.values, k);
    }
  }

  lemma {:induction false} RouteAlongTrace(st: Routing, ns: seq<Element>, data: PageData, parse: (Element, string) -> Option<Value>)
    ensures RouteAlong(st, ns, data, parse).trace == st.trace + Invocations(data, ns, parse)
    decreases |ns|
  {
    if ns != [] {
      var st1 := RouteOwn(st, ns[0], data, parse);
      RouteOwnTrace(st, ns[0], data, parse);
      RouteAlongTrace(st1, ns[1..], data, parse);
      var mine, later := NodeInvocations(data, ns[0], parse), Invocations(data, ns[1..], parse);
      assert Invocations(data, ns, parse) == mine + later;
      assert RouteAlong(st, ns, data, parse) == RouteAlong(st1, ns[1..], data, parse);
      assert st.trace + mine + later == st.trace + (mine + later);
    }
  }

  /**
   `handleDataEventInternal`: the interface afterwards and the listener calls made, in
   order. The calls are those of every node of the tree in pre-order; the cache under
   each id ends with the last value written for it, or what it held before.
   */
  function HandleDataEvent(ui: Interface, data: PageData, parse: (Element, string) -> Option<Value>): (r: (Interface, seq<Invocation>))
    ensures r.0 == ui.(elementValues := r.0.elementValues)
    ensures r.1 == Invocations(data, PreOrder(ui.elements), parse)
    ensures forall k :: StyleAttribute.SettledSomeBy(
      WriteRequests(data, PreOrder(ui.elements), parse, k), Lookup(ui.elementValues, k), Lookup(r.0.elementValues, k))
  {
    var st0 := Routing(ui.elementValues, []);
    var st := RouteForest(st0, ui.elements, data, parse);
    RouteForestPreOrder(st0, ui.elements, data, parse);
    RouteAlongTrace(st0, PreOrder(ui.elements), data, parse);
    forall k ensures StyleAttribute.SettledSomeBy(
      WriteRequests(data, PreOrder(ui.elements), parse, k), Lookup(ui.elementValues, k), Lookup(st.values, k)) {
      RouteAlongValues(st0, PreOrder(ui.elements), data, parse, k);
    }
    (ui.(elementValues := st.values), st.trace)
  }

  /** Two caches that agree on every lookup are equal. */
  lemma ValuesExtensional(a: Values, b: Values)
    requires forall k :: Lookup(a, k) == Lookup(b, k)
    ensures a == b
  {
    forall k ensures k in a <==> k in b {
      assert Lookup(a, k) == Lookup(b, k);
    }
    assert a.Keys == b.Keys;
    forall k | k in a ensures a[k] == b[k] {
      assert Lookup(a, k) == Lookup(b, k);
    }
  }

  /** Every listener call of a routed event answers a listener of a targeted element of the tree. */
  lemma CallsAnswerTargets(ui: Interface, data: PageData, parse: (Element, string) -> Option<Value>, j: int)
    requires 0 <= j < |HandleDataEvent(ui, data, parse).1|
    ensures exists n, l ::
      (n in PreOrder(ui.elements) && l in n.listeners &&
       Answers(data, n, l, HandleDataEvent(ui, data, parse).1[j], parse))
  {
    var ns := PreOrder(ui.elements);
    var inv := HandleDataEvent(ui, data, parse).1[j];
    InvocationsAnswer(data, ns, parse, j);
    var i, l :| 0 <= i < |ns| && l in ns[i].listeners && Answers(data, ns[i], l, inv, parse);
    assert ns[i] in ns;
  }

  /** An event addressed to no element of the tree changes nothing and calls nobody. */
  lemma UntargetedEventIgnored(ui: Interface, data: PageData, parse: (Element, string) -> Option<Value>)
    requires forall n :: n in PreOrder(ui.elements) ==> !Targets(data, n)
    ensures HandleDataEvent(ui, data, parse) == (ui, [])
  {
    var ns := PreOrder(ui.elements);
    var r := HandleDataEvent(ui, data, parse);
    if r.1 != [] {
      CallsAnswerTargets(ui, data, parse, 0);
      assert false;
    }
    forall k ensures Lookup(r.0.elementValues, k) == Lookup(ui.elementValues, k) {
      var rs := WriteRequests(data, ns, parse, k);
      forall i | 0 <= i < |rs| ensures rs[i].None? {
        assert ns[i] in ns;
      }
    }
    ValuesExtensional(r.0.elementValues, ui.elementValues);
  }

  /** When nothing the elements read parses, the cache is untouched and only clicks are delivered. */
  lemma UnparsableValuesDropped(ui: Interface, data: PageData, parse: (Element, string) -> Option<Value>)
    requires forall n, s :: parse(n, s).None?
    ensures HandleDataEvent(ui, data, parse).0 == ui
    ensures forall j :: 0 <= j < |HandleDataEvent(ui, data, parse).1| ==>
      HandleDataEvent(ui, data, parse).1[j].payload.None?
  {
    var ns := PreOrder(ui.elements);
    var r := HandleDataEvent(ui, data, parse);
    forall k ensures Lookup(r.0.elementValues, k) == Lookup(ui.elementValues, k) {
      var rs := WriteRequests(data, ns, parse, k);
      forall i | 0 <= i < |rs| ensures rs[i].None? {
        assert FinalValue(data, ns[i], parse).None?;
      }
    }
    ValuesExtensional(r.0.elementValues, ui.elementValues);
    forall j | 0 <= j < |r.1| ensures r.1[j].payload.None? {
      CallsAnswerTargets(ui, data, parse, j);
    }
  }

  /** Only a targeted element with that user id and a value-change listener can change a cached value. */
  lemma CacheWritersTargeted(ui: Interface, data: PageData, parse: (Element, string) -> Option<Value>, k: string)
    requires GetValue(HandleDataEvent(ui, data, parse).0, k) != GetValue(ui, k)
    ensures data.action == ValueChangedAction
    ensures exists n :: n in PreOrder(ui.elements) && n.userId == Some(k) && Targets(data, n) && HasValueListener(n.listeners)
  {
    var ns := PreOrder(ui.elements);
    var rs := WriteRequests(data, ns, parse, k);
    if forall i :: 0 <= i < |rs| ==> rs[i].None? {
      assert false;
    }
    var i :| 0 <= i < |rs| && rs[i].Some?;
    assert ns[i] in ns;
  }

  /** A value change reaching the only element with user id `k` caches what its listeners receive. */
  lemma ValueChangeCached(ui: Interface, data: PageData, parse: (Element, string) -> Option<Value>, k: string, i: int)
    requires 0 <= i < |PreOrder(ui.elements)|
    requires PreOrder(ui.elements)[i].userId == Some(k) && HasValueListener(PreOrder(ui.elements)[i].listeners)
    requires FinalValue(data, PreOrder(ui.elements)[i], parse).Some?
    requires forall j :: 0 <= j < |PreOrder(ui.elements)| && j != i ==> PreOrder(ui.elements)[j].userId != Some(k)
    ensures GetValue(HandleDataEvent(ui, data, parse).0, k) == FinalValue(data, PreOrder(ui.elements)[i], parse)
  {
    var ns := PreOrder(ui.elements);
    var rs := WriteRequests(data, ns, parse, k);
    StyleAttribute.SettledSomeByOnly(rs, Lookup(ui.elementValues, k), Lookup(HandleDataEvent(ui, data, parse).0.elementValues, k), i);
  }

  lemma {:induction false} FiredAllHas(data: PageData, e: Element, ls: seq<Listener>, l: Listener, parse: (Element, string) -> Option<Value>)
    requires l in ls
    ensures forall inv :: inv in Fired(data, e, l, parse) ==> inv in FiredAll(data, e, ls, parse)
    decreases |ls|
  {
    if ls[0] != l {
      assert l in ls[1..];
      FiredAllHas(data, e, ls[1..], l, parse);
    }
  }

  lemma {:induction false} InvocationsHas(data: PageData, ns: seq<Element>, n: Element, parse: (Element, string) -> Option<Value>)
    requires n in ns
    ensures forall inv :: inv in NodeInvocations(data, n, parse) ==> inv in Invocations(data, ns, parse)
    decreases |ns|
  {
    if ns[0] != n {
      assert n in ns[1..];
      InvocationsHas(data, ns[1..], n, parse);
    }
  }

  /**
   Routing does not stop at the first match: every listener of every targeted element
   of the tree is called, a click listener on a click and a value-change listener
   with the parsed value.
   */
  lemma EveryListenerReached(ui: Interface, data: PageData, parse: (Element, string) -> Option<Value>, n: Element, l: Listener)
    requires n in PreOrder(ui.elements) && l in n.listeners && Targets(data, n)
    ensures l.binding == Activating && data.action == ButtonClicked ==>
      Invocation(l.callback, None) in HandleDataEvent(ui, data, parse).1
    ensures l.binding == Binding.ValueChanged && FinalValue(data, n, parse).Some? ==>
      Invocation(l.callback, FinalValue(data, n, parse)) in HandleDataEvent(ui, data, parse).1
  {
    FiredAllHas(data, n, n.listeners, l, parse);
    InvocationsHas(data, PreOrder(ui.elements), n, parse);
    var f := Fired(data, n, l, parse);
    if f != [] {
      assert f[0] in f;
    }
  }
}
