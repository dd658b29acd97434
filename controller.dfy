/**
  The `Controller` base class: `on` turns an event expression into one
  listener per space-separated part, and keeps a removal function for each;
  `disconnect` pops and calls them; `target`, `targets` and `hasTarget` query
  the controller's element for marked descendants (src/index.ts).

  A subclass's `connect()` is modelled by what it does with the base class:
  its class carries the list of `on` calls it makes (`bindings`), and a
  lineage of class identities so that `instanceof` can be decided.
*/
module Controllers {
  import opened Optional
  import opened JsStrings
  import opened EventExpressions
  import opened Dom
  import opened Conditions
  import opened Listeners

  /** One `this.on(expression, callback, options)` call made by a subclass's `connect()`. */
  datatype Binding = Binding(expression: string, callback: Callback, options: Options)

  /** A controller class: its identity, the identities of itself and its ancestors, and the `on` calls its `connect()` makes. */
  datatype ControllerClass = ControllerClass(classId: nat, lineage: set<nat>, bindings: seq<Binding>)

  /** An instance of class `of` is `instanceof cls`. */
  predicate InstanceOf(of: ControllerClass, cls: ControllerClass) {
    cls.classId in of.lineage
  }

  /** Every space-separated part of `expression` has the `target->event` form `on` requires. */
  predicate Parses(expression: string) {
    forall i :: 0 <= i < |SplitSpaces(expression)| ==> HasArrow(SplitSpaces(expression)[i])
  }

  /** A class is its own instance's class, and its `connect()` only passes expressions `on` accepts. */
  predicate WellFormedClass(cls: ControllerClass) {
    && cls.classId in cls.lineage
    && forall i :: 0 <= i < |cls.bindings| ==> Parses(cls.bindings[i].expression)
  }

  // ---------------------------------------------------------------------
  // What `on` registers
  // ---------------------------------------------------------------------

  /** The listener `on` installs for one part of an expression, with trigger closure number `id`. */
  function ListenerFor(identifier: string, element: ElementId, targetMapping: TargetMapping,
                       callback: Callback, options: Options, part: string, id: nat): Listener
    requires HasArrow(part)
  {
    var resolution := Resolve(targetMapping, element, TargetOf(part));
    Listener(resolution.host, EventOf(part),
             Trigger(id, identifier, part, resolution.scoped, callback),
             CaptureOf(options), OnceOf(options), PassiveOf(options))
  }

  /** Everything one `on` call installs: a listener per part, in order, numbering the closures from `firstId`. */
  function OnListeners(identifier: string, element: ElementId, targetMapping: TargetMapping,
                       expression: string, callback: Callback, options: Options, firstId: nat): (ls: seq<Listener>)
    requires Parses(expression)
    ensures |ls| == |SplitSpaces(expression)|
  {
    var pieces := SplitSpaces(expression);
    seq(|pieces|, i requires 0 <= i < |pieces| => ListenerFor(identifier, element, targetMapping, callback, options, pieces[i], firstId + i))
  }

  /** Everything a controller's `connect()` installs: its `on` calls in order. */
  function ConnectListeners(identifier: string, element: ElementId, targetMapping: TargetMapping,
                            bindings: seq<Binding>, firstId: nat): (ls: seq<Listener>)
    requires forall i :: 0 <= i < |bindings| ==> Parses(bindings[i].expression)
    decreases |bindings|
  {
    if bindings == [] then []
    else
      var prior := ConnectListeners(identifier, element, targetMapping, bindings[..|bindings| - 1], firstId);
      var last := bindings[|bindings| - 1];
      prior + OnListeners(identifier, element, targetMapping, last.expression, last.callback, last.options, firstId + |prior|)
  }

  /** The removal key the `off` closure of the source uses: `removeEventListener(event, trigger)` without options, so always the non-capture listener. */
  function AsWrittenOff(l: Listener): ListenerKey {
    ListenerKey(l.host, l.eventType, l.trigger.id, false)
  }

  function AsWrittenOffs(ls: seq<Listener>): (ks: seq<ListenerKey>)
    ensures |ks| == |ls|
    ensures forall i :: 0 <= i < |ls| ==> ks[i] == AsWrittenOff(ls[i])
  {
    seq(|ls|, i requires 0 <= i < |ls| => AsWrittenOff(ls[i]))
  }

  // ---------------------------------------------------------------------
  // Targets
  // ---------------------------------------------------------------------

  /** The elements of `els` carrying `data-<identifier>-target="<name>"`, in order. */
  function MarkedAmong(data: map<ElementId, Dataset>, els: seq<ElementId>, identifier: string, name: string): (r: seq<ElementId>)
    ensures |r| <= |els|
    ensures forall x :: x in r <==> x in els && MarkedTarget(data, x, identifier, name)
  {
    if els == [] then []
    else if MarkedTarget(data, els[0], identifier, name) then [els[0]] + MarkedAmong(data, els[1..], identifier, name)
    else MarkedAmong(data, els[1..], identifier, name)
  }

  /** The position of the first marked element of `els`, if any. */
  function FirstMarked(data: map<ElementId, Dataset>, els: seq<ElementId>, identifier: string, name: string): (r: Option<nat>)
    ensures r.Some? ==> r.value < |els| && MarkedTarget(data, els[r.value], identifier, name)
    ensures r.Some? ==> forall j :: 0 <= j < r.value ==> !MarkedTarget(data, els[j], identifier, name)
    ensures r.None? ==> forall j :: 0 <= j < |els| ==> !MarkedTarget(data, els[j], identifier, name)
  {
    if els == [] then None
    else if MarkedTarget(data, els[0], identifier, name) then Some(0)
    else match FirstMarked(data, els[1..], identifier, name)
      case None => None
      case Some(j) => Some(j + 1)
  }

  /** The outcome of `target`: the element found, or the error it throws. */
  datatype Lookup = Found(found: ElementId) | TargetNotFound(identifier: string, name: string)

  /** The first marked element is the head of the marked list. */
  lemma {:induction false} FirstMarkedHeadsMarkedAmong(data: map<ElementId, Dataset>, els: seq<ElementId>, identifier: string, name: string)
    ensures FirstMarked(data, els, identifier, name).Some? <==> MarkedAmong(data, els, identifier, name) != []
    ensures FirstMarked(data, els, identifier, name).Some? ==>
              els[FirstMarked(data, els, identifier, name).value] == MarkedAmong(data, els, identifier, name)[0]
  {
    if els != [] && !MarkedTarget(data, els[0], identifier, name) {
      FirstMarkedHeadsMarkedAmong(data, els[1..], identifier, name);
    }
  }

  // ---------------------------------------------------------------------
  // The controller
  // ---------------------------------------------------------------------

  class Controller {
    const identifier: string
    const element: ElementId
    /** The class this controller was constructed from. */
    const classOf: ControllerClass
    /** The removal functions `on` pushed, oldest first. */
    var listeners: seq<ListenerKey>
    /** What the last `connect()` registered, and the number of its first trigger closure: a record for the proofs. */
    ghost var installed: seq<Listener>
    ghost var firstId: nat

    constructor (identifier: string, element: ElementId, classOf: ControllerClass)
      ensures this.identifier == identifier && this.element == element && this.classOf == classOf
      ensures listeners == [] && installed == []
    {
      this.identifier := identifier;
      this.element := element;
      this.classOf := classOf;
      listeners := [];
      installed := [];
      firstId := 0;
    }

    /** The body of `on` for one parsed part: a fresh trigger closure on the resolved node, and its removal function. */
    method OnPiece(part: string, callback: Callback, options: Options, targetMapping: TargetMapping, reg: ListenerRegistry)
      returns (ghost l: Listener)
      requires reg.Valid() && HasArrow(part)
      modifies this, reg
      ensures l == ListenerFor(identifier, element, targetMapping, callback, options, part, old(reg.issued))
      ensures reg.entries == old(reg.entries) + [l]
      ensures listeners == old(listeners) + [KeyOf(l)]
      ensures reg.issued == old(reg.issued) + 1
      ensures reg.Valid()
    {
      var descriptor := ParseEventExpression(part);
      var resolution := Resolve(targetMapping, element, descriptor.target);
      var id := reg.NewTriggerId();
      var trigger := Trigger(id, identifier, part, resolution.scoped, callback);
      l := Listener(resolution.host, descriptor.event, trigger, CaptureOf(options), OnceOf(options), PassiveOf(options));
      assert !Registered(reg.entries, KeyOf(l));
      reg.AddEventListener(resolution.host, descriptor.event, trigger, options);
      listeners := listeners + [ListenerKey(resolution.host, descriptor.event, id, CaptureOf(options))];
    }

    /**
      `on(expression, callback, options)`: one listener per space-separated
      part. Each removal function removes the listener with the capture flag
      it was added with.
    */
    method On(expression: string, callback: Callback, options: Options, targetMapping: TargetMapping, reg: ListenerRegistry)
      requires reg.Valid() && Parses(expression)
      modifies this, reg
      ensures reg.entries == old(reg.entries) + OnListeners(identifier, element, targetMapping, expression, callback, options, old(reg.issued))
      ensures listeners == old(listeners) + Keys(OnListeners(identifier, element, targetMapping, expression, callback, options, old(reg.issued)))
      ensures reg.issued == old(reg.issued) + |OnListeners(identifier, element, targetMapping, expression, callback, options, old(reg.issued))|
      ensures reg.Valid()
    {
      var pieces := SplitSpaces(expression);
      ghost var added := OnListeners(identifier, element, targetMapping, expression, callback, options, reg.issued);
      ghost var first := reg.issued;
      var i := 0;
      while i < |pieces|
        invariant 0 <= i <= |pieces|
        invariant reg.issued == first + i
        invariant reg.entries == old(reg.entries) + added[..i]
        invariant listeners == old(listeners) + Keys(added)[..i]
        invariant reg.Valid()
      {
        ghost var entries := reg.entries;
        ghost var pushed := listeners;
        ghost var l := OnPiece(pieces[i], callback, options, targetMapping, reg);
        assert l == added[i];
        OnStep(old(reg.entries), old(listeners), added, i, entries, pushed);
        i := i + 1;
      }
      assert added[..i] == added;
      assert Keys(added)[..i] == Keys(added);
    }

    /** The base `connect()` of this controller's class: every `on` call of its bindings, in order. */
    method Connect(targetMapping: TargetMapping, reg: ListenerRegistry)
      requires reg.Valid() && WellFormedClass(classOf)
      modifies this, reg
      ensures reg.entries == old(reg.entries) + ConnectListeners(identifier, element, targetMapping, classOf.bindings, old(reg.issued))
      ensures listeners == old(listeners) + Keys(ConnectListeners(identifier, element, targetMapping, classOf.bindings, old(reg.issued)))
      ensures reg.issued == old(reg.issued) + |ConnectListeners(identifier, element, targetMapping, classOf.bindings, old(reg.issued))|
      ensures installed == ConnectListeners(identifier, element, targetMapping, classOf.bindings, old(reg.issued))
      ensures firstId == old(reg.issued)
      ensures reg.Valid()
    {
      var bindings := classOf.bindings;
      ghost var first := reg.issued;
      var i := 0;
      while i < |bindings|
        invariant 0 <= i <= |bindings|
        invariant reg.entries == old(reg.entries) + ConnectListeners(identifier, element, targetMapping, bindings[..i], first)
        invariant listeners == old(listeners) + Keys(ConnectListeners(identifier, element, targetMapping, bindings[..i], first))
        invariant reg.issued == first + |ConnectListeners(identifier, element, targetMapping, bindings[..i], first)|
        invariant reg.Valid()
      {
        ghost var entries := reg.entries;
        ghost var pushed := listeners;
        var b := bindings[i];
        On(b.expression, b.callback, b.options, targetMapping, reg);
        ConnectStep(identifier, element, targetMapping, bindings, i, first, old(reg.entries), old(listeners), entries, pushed);
        i := i + 1;
      }
      assert bindings[..i] == bindings;
      installed := ConnectListeners(identifier, element, targetMapping, bindings, first);
      firstId := first;
    }

    /** The base `disconnect()`: pop each removal function and call it, until none is left. */
    method Disconnect(reg: ListenerRegistry)
      requires reg.Valid()
      modifies this, reg
      ensures listeners == []
      ensures reg.entries == Drain(old(reg.entries), old(listeners))
      ensures reg.entries == Without(old(reg.entries), set k | k in old(listeners))
      ensures reg.issued == old(reg.issued) && reg.Valid()
    {
      while |listeners| > 0
        invariant reg.Valid() && reg.issued == old(reg.issued)
        invariant Drain(reg.entries, listeners) == Drain(old(reg.entries), old(listeners))
        decreases |listeners|
      {
        var off := listeners[|listeners| - 1];
        listeners := listeners[..|listeners| - 1];
        reg.RemoveEventListener(off.host, off.eventType, off.triggerId, off.capture);
      }
      DrainIsWithout(old(reg.entries), old(listeners));
    }

    /** `targets(name)`: the marked descendants of the element, in document order. */
    function Targets(doc: Document, name: string): (r: seq<ElementId>)
      reads doc
      ensures forall x :: x in r <==> x in doc.DescendantsOf(element) && MarkedTarget(doc.data, x, identifier, name)
    {
      MarkedAmong(doc.data, doc.DescendantsOf(element), identifier, name)
    }

    /** `target(name)`: the first marked descendant, or the not-found error. */
    function Target(doc: Document, name: string): (r: Lookup)
      reads doc
      ensures r.Found? <==> Targets(doc, name) != []
      ensures r.Found? ==> r.found == Targets(doc, name)[0]
      ensures r.TargetNotFound? ==> r == TargetNotFound(identifier, name)
    {
      FirstMarkedHeadsMarkedAmong(doc.data, doc.DescendantsOf(element), identifier, name);
      match FirstMarked(doc.data, doc.DescendantsOf(element), identifier, name)
      case Some(j) => Found(doc.DescendantsOf(element)[j])
      case None => TargetNotFound(identifier, name)
    }

    /** `hasTarget(name)`: whether `target(name)` would find an element. */
    function HasTarget(doc: Document, name: string): (r: bool)
      reads doc
      ensures r <==> Target(doc, name).Found?
      ensures r <==> exists x :: x in doc.DescendantsOf(element) && MarkedTarget(doc.data, x, identifier, name)
    {
      FirstMarkedHeadsMarkedAmong(doc.data, doc.DescendantsOf(element), identifier, name);
      FirstMarked(doc.data, doc.DescendantsOf(element), identifier, name).Some?
    }
  }

  /** One more binding: what its `on` call installs comes after everything before it. */
  lemma {:induction false} ConnectListenersStep(identifier: string, element: ElementId, targetMapping: TargetMapping,
                                                bindings: seq<Binding>, i: nat, firstId: nat)
    requires i < |bindings|
    requires forall j :: 0 <= j < |bindings| ==> Parses(bindings[j].expression)
    ensures var prior := ConnectListeners(identifier, element, targetMapping, bindings[..i], firstId);
            ConnectListeners(identifier, element, targetMapping, bindings[..i + 1], firstId)
            == prior + OnListeners(identifier, element, targetMapping, bindings[i].expression, bindings[i].callback,
                                   bindings[i].options, firstId + |prior|)
  {
    assert bindings[..i + 1][..i] == bindings[..i];
  }

  /** The closures of `ls` are numbered consecutively from `firstId`. */
  predicate NumberedFrom(ls: seq<Listener>, firstId: nat) {
    forall i :: 0 <= i < |ls| ==> ls[i].trigger.id == firstId + i
  }

  lemma NumberedAppend(a: seq<Listener>, b: seq<Listener>, firstId: nat)
    requires NumberedFrom(a, firstId) && NumberedFrom(b, firstId + |a|)
    ensures NumberedFrom(a + b, firstId)
  {
    forall i | 0 <= i < |a + b| ensures (a + b)[i].trigger.id == firstId + i {
      if i >= |a| {
        assert (a + b)[i] == b[i - |a|];
      }
    }
  }

  /** The closures one `on` call creates are numbered consecutively from `firstId`. */
  lemma OnListenersIds(identifier: string, element: ElementId, targetMapping: TargetMapping,
                       expression: string, callback: Callback, options: Options, firstId: nat)
    requires Parses(expression)
    ensures NumberedFrom(OnListeners(identifier, element, targetMapping, expression, callback, options, firstId), firstId)
  {
  }

  /** The closures `connect()` creates are numbered consecutively from `firstId`. */
  lemma {:induction false} ConnectListenersIds(identifier: string, element: ElementId, targetMapping: TargetMapping,
                                               bindings: seq<Binding>, firstId: nat)
    requires forall i :: 0 <= i < |bindings| ==> Parses(bindings[i].expression)
    ensures NumberedFrom(ConnectListeners(identifier, element, targetMapping, bindings, firstId), firstId)
    decreases |bindings|
  {
    if bindings != [] {
      var prefix := bindings[..|bindings| - 1];
      ConnectListenersIds(identifier, element, targetMapping, prefix, firstId);
      var prior := ConnectListeners(identifier, element, targetMapping, prefix, firstId);
      var last := bindings[|bindings| - 1];
      OnListenersIds(identifier, element, targetMapping, last.expression, last.callback, last.options, firstId + |prior|);
      NumberedAppend(prior, OnListeners(identifier, element, targetMapping, last.expression, last.callback, last.options, firstId + |prior|), firstId);
    }
  }

  /** One binding more: the registry and the removal functions grow by what its `on` call installs. */
  lemma ConnectStep(identifier: string, element: ElementId, targetMapping: TargetMapping,
                    bindings: seq<Binding>, i: nat, firstId: nat,
                    entries0: seq<Listener>, pushed0: seq<ListenerKey>, entries: seq<Listener>, pushed: seq<ListenerKey>)
    requires i < |bindings|
    requires forall j :: 0 <= j < |bindings| ==> Parses(bindings[j].expression)
    requires entries == entries0 + ConnectListeners(identifier, element, targetMapping, bindings[..i], firstId)
    requires pushed == pushed0 + Keys(ConnectListeners(identifier, element, targetMapping, bindings[..i], firstId))
    ensures var prior := ConnectListeners(identifier, element, targetMapping, bindings[..i], firstId);
            var next := OnListeners(identifier, element, targetMapping, bindings[i].expression, bindings[i].callback,
                                    bindings[i].options, firstId + |prior|);
            && entries + next == entries0 + ConnectListeners(identifier, element, targetMapping, bindings[..i + 1], firstId)
            && pushed + Keys(next) == pushed0 + Keys(ConnectListeners(identifier, element, targetMapping, bindings[..i + 1], firstId))
            && |ConnectListeners(identifier, element, targetMapping, bindings[..i + 1], firstId)| == |prior| + |next|
  {
    var prior := ConnectListeners(identifier, element, targetMapping, bindings[..i], firstId);
    var next := OnListeners(identifier, element, targetMapping, bindings[i].expression, bindings[i].callback,
                            bindings[i].options, firstId + |prior|);
    ConnectListenersStep(identifier, element, targetMapping, bindings, i, firstId);
    AppendAssoc(entries0, prior, next);
    KeysAppend(prior, next);
    AppendAssoc(pushed0, Keys(prior), Keys(next));
  }

  /** One part more: the registry and the removal functions grow by that part's listener and its key. */
  lemma OnStep(entries0: seq<Listener>, pushed0: seq<ListenerKey>, added: seq<Listener>, i: nat,
               entries: seq<Listener>, pushed: seq<ListenerKey>)
    requires i < |added|
    requires entries == entries0 + added[..i] && pushed == pushed0 + Keys(added)[..i]
    ensures entries + [added[i]] == entries0 + added[..i + 1]
    ensures pushed + [KeyOf(added[i])] == pushed0 + Keys(added)[..i + 1]
  {
    PrefixStep(entries0, added, i);
    KeysAt(added, i);
    PrefixStep(pushed0, Keys(added), i);
  }

  /** Extending a prefix of `s` by its next element. */
  lemma PrefixStep<T>(base: seq<T>, s: seq<T>, i: nat)
    requires i < |s|
    ensures base + s[..i] + [s[i]] == base + s[..i + 1]
  {
    assert s[..i + 1] == s[..i] + [s[i]];
  }

  lemma PairOf<T>(s: seq<T>)
    requires |s| == 2
    ensures s == [s[0], s[1]]
  {
  }

  lemma AppendAssoc<T>(a: seq<T>, b: seq<T>, c: seq<T>)
    ensures a + b + c == a + (b + c)
  {
  }

  // ---------------------------------------------------------------------
  // Properties of `on` and `disconnect`
  // ---------------------------------------------------------------------

  /** Listeners of closures newer than every registered one are removed by their own keys, and nothing else is. */
  lemma {:induction false} FreshListenersRemoved(entries: seq<Listener>, added: seq<Listener>, bound: nat)
    requires forall i :: 0 <= i < |entries| ==> entries[i].trigger.id < bound
    requires forall i :: 0 <= i < |added| ==> added[i].trigger.id >= bound
    ensures Drain(entries + added, Keys(added)) == entries
  {
    var ks := set k | k in Keys(added);
    DrainIsWithout(entries + added, Keys(added));
    WithoutAppend(entries, added, ks);
    KeysMembers(added);
    assert forall k :: k in ks ==> k.triggerId >= bound;
    WithoutNothing(entries, ks);
    forall i | 0 <= i < |added| ensures KeyOf(added[i]) in ks {
      KeysAt(added, i);
    }
    WithoutEverything(added, ks);
  }

  /**
    A controller with no listeners that connects and then disconnects leaves
    the listener lists as they were.
  */
  lemma {:induction false} ConnectThenDisconnect(identifier: string, element: ElementId, targetMapping: TargetMapping,
                                                 cls: ControllerClass, entries: seq<Listener>, issued: nat)
    requires WellFormedClass(cls)
    requires forall i :: 0 <= i < |entries| ==> entries[i].trigger.id < issued
    ensures var added := ConnectListeners(identifier, element, targetMapping, cls.bindings, issued);
            Drain(entries + added, Keys(added)) == entries
  {
    ConnectListenersIds(identifier, element, targetMapping, cls.bindings, issued);
    FreshListenersRemoved(entries, ConnectListeners(identifier, element, targetMapping, cls.bindings, issued), issued);
  }

  /** The same for a single `on` call. */
  lemma {:induction false} OnThenDisconnect(identifier: string, element: ElementId, targetMapping: TargetMapping,
                                            expression: string, callback: Callback, options: Options,
                                            entries: seq<Listener>, issued: nat)
    requires Parses(expression)
    requires forall i :: 0 <= i < |entries| ==> entries[i].trigger.id < issued
    ensures var added := OnListeners(identifier, element, targetMapping, expression, callback, options, issued);
            Drain(entries + added, Keys(added)) == entries
  {
    FreshListenersRemoved(entries, OnListeners(identifier, element, targetMapping, expression, callback, options, issued), issued);
  }

  /** Removal keys that all say "not capture" leave every capture listener in place. */
  lemma {:induction false} AsWrittenOffKeepsCapture(entries: seq<Listener>, added: seq<Listener>)
    requires forall i :: 0 <= i < |added| ==> added[i].capture
    ensures forall i :: 0 <= i < |added| ==> added[i] in Drain(entries + added, AsWrittenOffs(added))
  {
    var ks := set k | k in AsWrittenOffs(added);
    DrainIsWithout(entries + added, AsWrittenOffs(added));
    assert forall k :: k in ks ==> !k.capture;
    forall i | 0 <= i < |added| ensures added[i] in Without(entries + added, ks) {
      assert added[i] in entries + added;
    }
  }

  /**
    With the removal functions as the source writes them, a listener added
    with `capture: true` is never removed: after `disconnect()` every one of
    them is still registered.
  */
  lemma {:induction false} AsWrittenOffLeaksCaptureListeners(identifier: string, element: ElementId, targetMapping: TargetMapping,
                                                              expression: string, callback: Callback,
                                                              entries: seq<Listener>, issued: nat)
    requires Parses(expression)
    ensures var added := OnListeners(identifier, element, targetMapping, expression, callback, UseCapture(true), issued);
            forall i :: 0 <= i < |added| ==> added[i] in Drain(entries + added, AsWrittenOffs(added))
  {
    var added := OnListeners(identifier, element, targetMapping, expression, callback, UseCapture(true), issued);
    assert forall i :: 0 <= i < |added| ==> added[i].capture;
    AsWrittenOffKeepsCapture(entries, added);
  }

  /** An expression without spaces installs exactly one listener. */
  lemma {:induction false} OnePartOneListener(identifier: string, element: ElementId, targetMapping: TargetMapping,
                                              expression: string, callback: Callback, options: Options, issued: nat)
    requires ' ' !in expression && HasArrow(expression)
    ensures Parses(expression)
    ensures OnListeners(identifier, element, targetMapping, expression, callback, options, issued)
         == [ListenerFor(identifier, element, targetMapping, callback, options, expression, issued)]
  {
    SplitSpacesNoSpace(expression);
  }

  /**
    Two parts separated by a space, as in `field->focus field->input`, install
    two listeners, one per part and in that order, numbered one after the other.
  */
  lemma {:induction false} TwoPartsTwoListeners(identifier: string, element: ElementId, targetMapping: TargetMapping,
                                                a: string, b: string, callback: Callback, options: Options, issued: nat)
    requires ' ' !in a && ' ' !in b && HasArrow(a) && HasArrow(b)
    ensures Parses(a + " " + b)
    ensures OnListeners(identifier, element, targetMapping, a + " " + b, callback, options, issued)
         == [ListenerFor(identifier, element, targetMapping, callback, options, a, issued),
             ListenerFor(identifier, element, targetMapping, callback, options, b, issued + 1)]
  {
    SplitSpacesPair(a, b);
    var ls := OnListeners(identifier, element, targetMapping, a + " " + b, callback, options, issued);
    assert |ls| == 2;
    assert ls[0] == ListenerFor(identifier, element, targetMapping, callback, options, a, issued);
    assert ls[1] == ListenerFor(identifier, element, targetMapping, callback, options, b, issued + 1);
    PairOf(ls);
  }
}
