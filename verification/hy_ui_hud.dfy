/**
 HyUIHud: a HUD wrapping an interface. Showing or hiding sets the visibility of the
 top-level elements whose user id is "HyUIRoot", rebuilds the whole interface into a
 fresh command list and pushes it to the host as one update; a HUD update replaces
 the interface's file, elements and callbacks. The host's `update(clear, builder)` is
 recorded in an update log.
 */
module HyUIHud {
  import opened Wrappers
  import opened Elements
  import opened Commands
  import opened HyUInterface

  /** The user id that marks a top-level element as the HUD's root. */
  const RootId: string := "HyUIRoot"

  /** One call of the host's `update(clear, builder)`. */
  datatype HostUpdate = HostUpdate(clear: bool, commands: seq<Command>)

  /** The HUD: its interface, the private `isHidden` flag, and the updates pushed so far. */
  datatype Hud = Hud(delegate: Interface, isHidden: bool, updates: seq<HostUpdate>)

  /** What a HudBuilder supplies to an update: base file, top-level elements, callbacks. */
  datatype HudSpec = HudSpec(uiFile: Option<string>, topLevelElements: seq<Element>, editCallbacks: Option<seq<seq<Command>>>)

  predicate IsRoot(e: Element) {
    e.userId == Some(RootId)
  }

  /** The loop of `setVisibilityOnRoot`: `withVisible(value)` on each root, the rest untouched. */
  function WithRootVisibility(es: seq<Element>, value: bool): (r: seq<Element>)
    ensures |r| == |es|
    ensures forall i :: 0 <= i < |es| && IsRoot(es[i]) ==> r[i] == es[i].(visible := value)
    ensures forall i :: 0 <= i < |es| && !IsRoot(es[i]) ==> r[i] == es[i]
    decreases |es|
  {
    if es == [] then []
    else
      var head := if IsRoot(es[0]) then es[0].(visible := value) else es[0];
      var tail := WithRootVisibility(es[1..], value);
      assert forall i :: 1 <= i < |es| ==> es[1..][i - 1] == es[i];
      [head] + tail
  }

  /**
   `setVisibilityOnRoot(value)`: sets the roots' visibility, rebuilds the interface into
   a fresh builder (which also resets the value cache to the initial values), pushes
   that as one clearing update, and flips `isHidden`.
   */
  function SetVisibilityOnRoot(h: Hud, value: bool, emit: Element -> seq<Command>): (r: Hud)
    ensures r.isHidden == !h.isHidden
    ensures |r.delegate.elements| == |h.delegate.elements|
    ensures forall i :: 0 <= i < |h.delegate.elements| ==>
      r.delegate.elements[i] ==
        if IsRoot(h.delegate.elements[i]) then h.delegate.elements[i].(visible := value) else h.delegate.elements[i]
    ensures r.delegate.uiFile == h.delegate.uiFile && r.delegate.editCallbacks == h.delegate.editCallbacks
    ensures r.delegate.elementValues == CaptureAlong(map[], PreOrder(r.delegate.elements))
    ensures |r.updates| == |h.updates| + 1 && r.updates[..|h.updates|] == h.updates
    ensures r.updates[|h.updates|] == HostUpdate(true, Build(r.delegate, emit).1)
  {
    var shown := h.delegate.(elements := WithRootVisibility(h.delegate.elements, value));
    var built := Build(shown, emit);
    assert built.0.elements == shown.elements;
    Hud(built.0, !h.isHidden, h.updates + [HostUpdate(true, built.1)])
  }

  /** `hide()`. */
  function Hide(h: Hud, emit: Element -> seq<Command>): (r: Hud)
    ensures r.isHidden == !h.isHidden
    ensures forall i :: 0 <= i < |r.delegate.elements| && IsRoot(r.delegate.elements[i]) ==> !r.delegate.elements[i].visible
  {
    SetVisibilityOnRoot(h, false, emit)
  }

  /** `show()`. */
  function Show(h: Hud, emit: Element -> seq<Command>): (r: Hud)
    ensures r.isHidden == !h.isHidden
    ensures forall i :: 0 <= i < |r.delegate.elements| && IsRoot(r.delegate.elements[i]) ==> r.delegate.elements[i].visible
  {
    SetVisibilityOnRoot(h, true, emit)
  }

  /** `configureFrom`: replaces file, elements and callbacks wholesale and yields an empty builder. */
  function ConfigureFrom(h: Hud, spec: HudSpec): (r: (Hud, seq<Command>))
    ensures r.0.delegate == Interface(spec.uiFile, spec.topLevelElements, spec.editCallbacks, h.delegate.elementValues)
    ensures r.0.isHidden == h.isHidden && r.0.updates == h.updates
    ensures r.1 == []
  {
    var d := h.delegate.(editCallbacks := spec.editCallbacks).(elements := spec.topLevelElements).(uiFile := spec.uiFile);
    (h.(delegate := d), [])
  }

  /** `update(HudBuilder)`: reconfigures, then pushes the builder `configureFrom` returned. */
  function Update(h: Hud, spec: HudSpec): (r: Hud)
    ensures r.delegate.uiFile == spec.uiFile && r.delegate.elements == spec.topLevelElements
    ensures r.delegate.editCallbacks == spec.editCallbacks
    ensures r.delegate.elementValues == h.delegate.elementValues
    ensures r.isHidden == h.isHidden
    ensures r.updates == h.updates + [HostUpdate(true, [])]
  {
    var (configured, builder) := ConfigureFrom(h, spec);
    configured.(updates := configured.updates + [HostUpdate(true, builder)])
  }

  /** `getValue(id)`: the interface's cached value. */
  function GetValue(h: Hud, id: string): (r: Option<Value>)
    ensures r == HyUInterface.GetValue(h.delegate, id)
    ensures r.Some? <==> id in h.delegate.elementValues
  {
    HyUInterface.GetValue(h.delegate, id)
  }

  /** The flag flips on every call, so hiding twice leaves it where it started. */
  lemma {:induction false} HideTwiceRestoresFlag(h: Hud, emit: Element -> seq<Command>)
    ensures Hide(Hide(h, emit), emit).isHidden == h.isHidden
    ensures forall i :: 0 <= i < |h.delegate.elements| && IsRoot(h.delegate.elements[i]) ==>
      !Hide(Hide(h, emit), emit).delegate.elements[i].visible
  {
    var once := Hide(h, emit);
    assert |once.delegate.elements| == |h.delegate.elements|;
    forall i | 0 <= i < |h.delegate.elements| && IsRoot(h.delegate.elements[i])
      ensures IsRoot(once.delegate.elements[i])
    {
      assert once.delegate.elements[i] == h.delegate.elements[i].(visible := false);
    }
  }

  /** Hiding, then showing, a HUD whose roots were visible gives back the same elements and flag. */
  lemma ShowAfterHide(h: Hud, emit: Element -> seq<Command>)
    requires forall i :: 0 <= i < |h.delegate.elements| && IsRoot(h.delegate.elements[i]) ==> h.delegate.elements[i].visible
    ensures Show(Hide(h, emit), emit).delegate.elements == h.delegate.elements
    ensures Show(Hide(h, emit), emit).isHidden == h.isHidden
    ensures |Show(Hide(h, emit), emit).updates| == |h.updates| + 2
  {
    var es := h.delegate.elements;
    var hidden := Hide(h, emit).delegate.elements;
    var shown := Show(Hide(h, emit), emit).delegate.elements;
    forall i | 0 <= i < |es| ensures shown[i] == es[i] {
      if IsRoot(es[i]) {
        assert hidden[i] == es[i].(visible := false);
      } else {
        assert hidden[i] == es[i];
      }
    }
  }

  /** Changing visibility rebuilds the cache: values edited since the last build are forgotten. */
  lemma VisibilityResetsValues(h: Hud, value: bool, emit: Element -> seq<Command>, k: string)
    ensures GetValue(SetVisibilityOnRoot(h, value, emit), k).Some? <==>
      exists n :: n in PreOrder(SetVisibilityOnRoot(h, value, emit).delegate.elements) && n.userId == Some(k) && n.initialValue.Some?
  {
    var r := SetVisibilityOnRoot(h, value, emit);
    var shown := h.delegate.(elements := r.delegate.elements);
    BuildCachesInitialValues(shown, emit, k);
    assert Build(shown, emit).0 == r.delegate;
  }
}
