/**
  What a listener installed by `Controller.on` does with an event: the two
  configuration tables (`targetMapping`, `keyMapping`), target resolution,
  the target and keyboard conditions, and the trigger that checks them and
  then applies `:prevent` / `:stop` before calling the callback
  (src/index.ts).
*/
module Conditions {
  import opened Optional
  import opened JsStrings
  import opened EventExpressions
  import opened Dom

  // ---------------------------------------------------------------------
  // Configuration tables
  // ---------------------------------------------------------------------

  /** `targetMapping`: reserved target names and the node each stands for; a `None` value is a `null` node (`document.body` before the body exists). */
  type TargetMapping = map<string, Option<Node>>

  /** The default `targetMapping`, for a document whose `<body>` is `body` (if any) and whose root element is `html`. */
  function DefaultTargetMapping(body: Option<ElementId>, html: ElementId): TargetMapping {
    map[
      "@window" := Some(WindowNode),
      "@doc" := Some(DocumentNode),
      "@document" := Some(DocumentNode),
      "@body" := (if body.Some? then Some(ElementNode(body.value)) else None),
      "@html" := Some(ElementNode(html))
    ]
  }

  /** `targetMapping[name]` when it is truthy. */
  function Alias(mapping: TargetMapping, name: string): Option<Node> {
    if name in mapping then mapping[name] else None
  }

  /** `keyMapping`: short key names to the `KeyboardEvent.key` they stand for. */
  type KeyMapping = map<string, string>

  const NamedKeys: KeyMapping := map[
    "enter" := "Enter", "tab" := "Tab", "esc" := "Escape", "space" := " ",
    "up" := "ArrowUp", "down" := "ArrowDown", "left" := "ArrowLeft", "right" := "ArrowRight",
    "home" := "Home", "end" := "End", "page_up" := "PageUp", "page_down" := "PageDown"
  ]

  const Alphanumerics: string := "abcdefghijklmnopqrstuvwxyz0123456789"

  /** Every lower-case letter and digit, standing for itself. */
  const AlphanumericKeys: KeyMapping := map[
    "a" := "a", "b" := "b", "c" := "c", "d" := "d", "e" := "e", "f" := "f", "g" := "g", "h" := "h", "i" := "i",
    "j" := "j", "k" := "k", "l" := "l", "m" := "m", "n" := "n", "o" := "o", "p" := "p", "q" := "q", "r" := "r",
    "s" := "s", "t" := "t", "u" := "u", "v" := "v", "w" := "w", "x" := "x", "y" := "y", "z" := "z", "0" := "0",
    "1" := "1", "2" := "2", "3" := "3", "4" := "4", "5" := "5", "6" := "6", "7" := "7", "8" := "8", "9" := "9"
  ]

  /** The default `keyMapping`. */
  const DefaultKeyMapping: KeyMapping := NamedKeys + AlphanumericKeys

  // ---------------------------------------------------------------------
  // Events
  // ---------------------------------------------------------------------

  /** The part of a `KeyboardEvent` the keyboard condition reads. */
  datatype KeyState = KeyState(key: string, metaKey: bool, ctrlKey: bool, altKey: bool, shiftKey: bool)

  /** An event as a trigger sees it; `keyboard` is present exactly when the event is a `KeyboardEvent`. */
  datatype Event = Event(eventType: string, target: Option<Node>, keyboard: Option<KeyState>)

  /** `event[`${modifier}Key`]` for the four modifier names. */
  function ModifierFlag(ks: KeyState, modifier: string): bool {
    if modifier == "meta" then ks.metaKey
    else if modifier == "ctrl" then ks.ctrlKey
    else if modifier == "alt" then ks.altKey
    else if modifier == "shift" then ks.shiftKey
    else false
  }

  /** The keyboard condition of `on` (src/index.ts:364-384). */
  predicate KeyboardCondition(d: EventExpression, e: Event, keyMapping: KeyMapping) {
    match e.keyboard
    case None => true
    case Some(ks) =>
      |d.keys| == 0
      || (&& d.key in keyMapping
          && keyMapping[d.key] != ""
          && ToLower(keyMapping[d.key]) == ToLower(ks.key)
          && forall m :: m in KeyboardModifiers ==> ModifierFlag(ks, m) == (m in d.keys))
  }

  /** How `on` resolves a target name: the node the listener goes on, and whether events must come from a marked target. */
  datatype Resolution = Resolution(host: Node, scoped: bool)

  function Resolve(mapping: TargetMapping, element: ElementId, target: string): (r: Resolution)
    ensures r.scoped <==> Alias(mapping, target).None?
    ensures r.host == if r.scoped then ElementNode(element) else Alias(mapping, target).value
  {
    match Alias(mapping, target)
    case Some(node) => Resolution(node, false)
    case None => Resolution(ElementNode(element), true)
  }

  /** `el.matches('[data-<identifier>-target="<target>"]')`. */
  predicate MarkedTarget(data: map<ElementId, Dataset>, el: ElementId, identifier: string, target: string) {
    HasValue(DatasetIn(data, el), identifier + "-target", target)
  }

  // ---------------------------------------------------------------------
  // The trigger
  // ---------------------------------------------------------------------

  /** The callback a controller passed to `on`, already bound to the controller. */
  type Callback = nat

  /**
    One trigger closure: what it captured when `on` built it. `id` is the
    closure's identity. The closure captures the parse of `part`; it is kept
    here as the part itself, and `Descriptor()` is that parse.
  */
  datatype Trigger = Trigger(id: nat, identifier: string, part: Part, scoped: bool, callback: Callback) {
    function Descriptor(): EventExpression {
      ParseEventExpression(part)
    }
  }

  /** The target condition of `on` (src/index.ts:356-361). */
  predicate TargetCondition(t: Trigger, e: Event, data: map<ElementId, Dataset>) {
    !t.scoped
    || (e.target.Some? && e.target.value.ElementNode?
        && MarkedTarget(data, e.target.value.id, t.identifier, t.Descriptor().target))
  }

  /** What running a trigger does, in order. */
  datatype Effect = PreventDefault | StopPropagation | Invoke(callback: Callback, event: Event)

  /** Running a trigger on an event (src/index.ts:387-401). */
  function Fire(t: Trigger, e: Event, data: map<ElementId, Dataset>, keyMapping: KeyMapping): (effects: seq<Effect>)
    ensures effects != [] <==> TargetCondition(t, e, data) && KeyboardCondition(t.Descriptor(), e, keyMapping)
    ensures effects != [] ==> effects[|effects| - 1] == Invoke(t.callback, e)
    ensures forall i :: 0 <= i < |effects| - 1 ==> !effects[i].Invoke?
    ensures PreventDefault in effects <==> effects != [] && "prevent" in t.Descriptor().modifiers
    ensures StopPropagation in effects <==> effects != [] && "stop" in t.Descriptor().modifiers
  {
    if !(TargetCondition(t, e, data) && KeyboardCondition(t.Descriptor(), e, keyMapping)) then []
    else
      (if "prevent" in t.Descriptor().modifiers then [PreventDefault] else [])
      + (if "stop" in t.Descriptor().modifiers then [StopPropagation] else [])
      + [Invoke(t.callback, e)]
  }

  // ---------------------------------------------------------------------
  // Properties of the keyboard condition
  // ---------------------------------------------------------------------

  /** Holding a modifier the combo does not name rejects the event: `ctrl+enter` with shift held does not fire. */
  lemma ExtraModifierRejects(d: EventExpression, ks: KeyState, e: Event, keyMapping: KeyMapping, m: string)
    requires e.keyboard == Some(ks) && |d.keys| > 0
    requires m in KeyboardModifiers && m !in d.keys && ModifierFlag(ks, m)
    ensures !KeyboardCondition(d, e, keyMapping)
  {
  }

  /** Releasing a modifier the combo names rejects the event. */
  lemma MissingModifierRejects(d: EventExpression, ks: KeyState, e: Event, keyMapping: KeyMapping, m: string)
    requires e.keyboard == Some(ks) && |d.keys| > 0
    requires m in KeyboardModifiers && m in d.keys && !ModifierFlag(ks, m)
    ensures !KeyboardCondition(d, e, keyMapping)
  {
  }

  /** The key comparison ignores case: events whose keys differ only in case are treated alike. */
  lemma KeyCaseIgnored(d: EventExpression, ks: KeyState, key: string, keyMapping: KeyMapping, eventType: string, target: Option<Node>)
    requires ToLower(key) == ToLower(ks.key)
    ensures KeyboardCondition(d, Event(eventType, target, Some(ks)), keyMapping)
        == KeyboardCondition(d, Event(eventType, target, Some(ks.(key := key))), keyMapping)
  {
    var m := "meta";
    assert ModifierFlag(ks, m) == ModifierFlag(ks.(key := key), m);
    forall m | m in KeyboardModifiers ensures ModifierFlag(ks, m) == ModifierFlag(ks.(key := key), m) {
    }
  }

  lemma {:induction false} NamedKeysAreLong(name: string)
    requires name in NamedKeys
    ensures |name| >= 2
  {
  }

  /** No key name of the default mapping is empty. */
  lemma {:induction false} EmptyKeyUnmapped()
    ensures "" !in DefaultKeyMapping
  {
    assert "" !in NamedKeys;
    AlphanumericKeysShort();
  }

  lemma {:induction false} AlphanumericKeysShort()
    ensures forall k :: k in AlphanumericKeys ==> |k| == 1
  {
  }

  /** Every lower-case letter and digit stands for itself in the default mapping. */
  lemma {:induction false} AlphanumericsMapToThemselves()
    ensures forall k :: k in AlphanumericKeys ==> k in DefaultKeyMapping && DefaultKeyMapping[k] == k
  {
    forall k | k in AlphanumericKeys ensures k in DefaultKeyMapping && DefaultKeyMapping[k] == k {
      assert AlphanumericKeys[k] == k;
    }
  }

  lemma {:induction false} EnterNamed()
    ensures "enter" in NamedKeys && "enter" !in AlphanumericKeys
  {
    AlphanumericKeysShort();
  }

  lemma {:induction false} EnterMapped()
    ensures "enter" in DefaultKeyMapping && DefaultKeyMapping["enter"] == "Enter"
  {
    EnterNamed();
    assert NamedKeys["enter"] == "Enter";
  }

  /**
    With the default key mapping, a combo made only of modifiers (`keydown.ctrl`)
    never lets a keyboard event through: its `key` is `""`, which is not mapped.
  */
  lemma {:induction false} ModifierOnlyComboNeverFires(d: EventExpression, ks: KeyState, e: Event)
    requires e.keyboard == Some(ks) && |d.keys| > 0 && d.key == ""
    ensures !KeyboardCondition(d, e, DefaultKeyMapping)
  {
    EmptyKeyUnmapped();
  }

  /**
    A `ctrl+enter` combo, under any key mapping that maps `enter` to `Enter`:
    a keyboard event passes exactly when its key is Enter in any case, ctrl is
    held and meta, alt and shift are not.
  */
  lemma CtrlEnterCombo(d: EventExpression, ks: KeyState, e: Event, keyMapping: KeyMapping)
    requires d.keys == ["ctrl", "enter"] && d.key == "enter" && e.keyboard == Some(ks)
    requires "enter" in keyMapping && keyMapping["enter"] == "Enter"
    ensures KeyboardCondition(d, e, keyMapping)
        <==> ToLower(ks.key) == "enter" && ks.ctrlKey && !ks.metaKey && !ks.altKey && !ks.shiftKey
  {
    assert ToLower("Enter") == "enter";
    assert "meta" !in d.keys && "alt" !in d.keys && "shift" !in d.keys && "ctrl" in d.keys;
    if KeyboardCondition(d, e, keyMapping) {
      assert ModifierFlag(ks, "meta") == false;
      assert ModifierFlag(ks, "ctrl") == true;
      assert ModifierFlag(ks, "alt") == false;
      assert ModifierFlag(ks, "shift") == false;
    }
  }

  /** The documented `input->keydown.ctrl+enter:prevent` expression under the default key mapping. */
  lemma CtrlEnterFilter(ks: KeyState, e: Event)
    requires e.keyboard == Some(ks)
    ensures HasArrow("input->keydown.ctrl+enter:prevent")
    ensures KeyboardCondition(ParseEventExpression("input->keydown.ctrl+enter:prevent"), e, DefaultKeyMapping)
        <==> ToLower(ks.key) == "enter" && ks.ctrlKey && !ks.metaKey && !ks.altKey && !ks.shiftKey
  {
    CtrlEnterExample();
    EnterMapped();
    CtrlEnterCombo(ParseEventExpression("input->keydown.ctrl+enter:prevent"), ks, e, DefaultKeyMapping);
  }

  // ---------------------------------------------------------------------
  // Properties of target resolution
  // ---------------------------------------------------------------------

  /**
    With the default target mapping every reserved name starts with `@`, so an
    ordinary target name is always scoped: the listener goes on the
    controller's element and only events from its marked targets pass.
  */
  lemma OrdinaryTargetsAreScoped(body: Option<ElementId>, html: ElementId, element: ElementId, target: string)
    requires target == [] || target[0] != '@'
    ensures Resolve(DefaultTargetMapping(body, html), element, target) == Resolution(ElementNode(element), true)
  {
    var m := DefaultTargetMapping(body, html);
    assert forall k :: k in m ==> |k| > 0 && k[0] == '@';
    assert target !in m;
  }

  /** `@window` listens on the window itself and never filters by target. */
  lemma WindowTargetUnscoped(body: Option<ElementId>, html: ElementId, element: ElementId, t: Trigger, e: Event, data: map<ElementId, Dataset>)
    requires t.scoped == Resolve(DefaultTargetMapping(body, html), element, "@window").scoped
    ensures Resolve(DefaultTargetMapping(body, html), element, "@window") == Resolution(WindowNode, false)
    ensures TargetCondition(t, e, data)
  {
  }

  /**
    An empty target name is scoped like any other: the listener only passes
    events whose target carries the attribute with an empty value.
  */
  lemma EmptyTargetIsScoped(body: Option<ElementId>, html: ElementId, element: ElementId, t: Trigger, e: Event, data: map<ElementId, Dataset>)
    requires t.Descriptor().target == "" && t.scoped == Resolve(DefaultTargetMapping(body, html), element, "").scoped
    ensures Resolve(DefaultTargetMapping(body, html), element, "").host == ElementNode(element)
    ensures TargetCondition(t, e, data) <==>
              e.target.Some? && e.target.value.ElementNode?
              && HasValue(DatasetIn(data, e.target.value.id), t.identifier + "-target", "")
  {
    OrdinaryTargetsAreScoped(body, html, element, "");
  }
}
