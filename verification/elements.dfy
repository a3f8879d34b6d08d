/**
 The element builder tree (UIElementBuilder and its records HyUIStyle, HyUIAnchor,
 UIEventListener) as immutable data. The kind tag replaces the builder class
 hierarchy: only Button and Group are distinguished by the code modelled here.
 */
module Elements {
  import opened Wrappers

  datatype Kind = Button | Group | Other

  /** HyUIStyle: every field is optional and only set fields are emitted. */
  datatype Style = Style(
    textColor: Option<string>,
    fontSize: Option<string>,
    renderBold: Option<bool>,
    renderUppercase: Option<bool>,
    verticalAlignment: Option<string>,
    horizontalAlignment: Option<string>,
    alignment: Option<string>)

  const EmptyStyle: Style := Style(None, None, None, None, None, None, None)

  /** HyUIAnchor: edge and size constraints, plus the single `full` value. */
  datatype Anchor = Anchor(
    left: Option<int>,
    right: Option<int>,
    top: Option<int>,
    bottom: Option<int>,
    width: Option<int>,
    height: Option<int>,
    full: Option<int>)

  const EmptyAnchor: Anchor := Anchor(None, None, None, None, None, None, None)

  /** A parsed element value (the source's `Object`, never null once parsed). */
  datatype Value = Number(n: int) | Boolean(b: bool) | Text(s: string)

  /** CustomUIEventBindingType, reduced to the two kinds the router distinguishes. */
  datatype Binding = Activating | ValueChanged | OtherBinding

  /** UIEventListener: a binding type and an opaque callback, identified by a tag. */
  datatype Listener = Listener(binding: Binding, callback: nat)

  /**
   The raw-DSL edits an element runs right before or after its own emission,
   one constructor per lambda the tag handler registers.
   */
  datatype Hook =
    | SetBackground(background: string)
    | SetPadding(padding: string)
    | DefineStyle(dsl: string)
    | UseStyle

  /** UIElementBuilder: identity, layout state, style state, hooks, value and listeners. */
  datatype Element = Element(
    kind: Kind,
    userId: Option<string>,
    effectiveId: Option<string>,
    visible: bool,
    flexWeight: Option<int>,
    layoutMode: Option<string>,
    style: Option<Style>,
    anchor: Option<Anchor>,
    before: seq<Hook>,
    after: seq<Hook>,
    initialValue: Option<Value>,
    usesRef: bool,
    listeners: seq<Listener>,
    children: seq<Element>)

  /** All elements of a forest, each before its children, siblings left to right. */
  function PreOrder(es: seq<Element>): (r: seq<Element>)
    ensures |r| >= |es|
    ensures forall i :: 0 <= i < |es| ==> es[i] in r
    decreases es
  {
    if es == [] then []
    else
      var rest := PreOrder(es[1..]);
      assert forall i :: 1 <= i < |es| ==> es[i] == es[1..][i - 1];
      [es[0]] + PreOrder(es[0].children) + rest
  }

  /** Pre-order of a concatenation is the concatenation of pre-orders. */
  lemma {:induction false} PreOrderAppend(a: seq<Element>, b: seq<Element>)
    ensures PreOrder(a + b) == PreOrder(a) + PreOrder(b)
    decreases |a|
  {
    if a != [] {
      assert (a + b)[0] == a[0];
      assert (a + b)[1..] == a[1..] + b;
      PreOrderAppend(a[1..], b);
      var h, p, r1, r2 := [a[0]], PreOrder(a[0].children), PreOrder(a[1..]), PreOrder(b);
      assert PreOrder(a + b) == h + p + (r1 + r2);
      assert PreOrder(a) == h + p + r1;
      AppendAssoc(h + p, r1, r2);
    } else {
      assert a + b == b;
    }
  }

  /** Pre-order is closed under taking children: every child of a listed element is listed. */
  lemma {:induction false} PreOrderHasChildren(es: seq<Element>, e: Element, c: Element)
    requires e in PreOrder(es) && c in e.children
    ensures c in PreOrder(es)
    decreases es
  {
    if es != [] {
      var r := PreOrder(es);
      if e == es[0] {
        assert c in PreOrder(es[0].children);
      } else if e in PreOrder(es[0].children) {
        PreOrderHasChildren(es[0].children, e, c);
      } else {
        PreOrderHasChildren(es[1..], e, c);
      }
    }
  }
}
