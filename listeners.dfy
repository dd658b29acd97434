/**
  The browser's event-listener lists, as `addEventListener` and
  `removeEventListener` maintain them. All event targets share one list here;
  each listener records the node it is attached to. A listener is identified
  by its node, event type, callback and capture flag: adding a second one
  with the same identity does nothing, and removal finds it by that identity.
*/
module Listeners {
  import opened Dom
  import opened Conditions

  /** The third argument of `addEventListener`: absent, a boolean, or an options dictionary. */
  datatype Options = NoOptions | UseCapture(flag: bool) | Dictionary(capture: bool, once: bool, passive: bool)

  function CaptureOf(o: Options): bool {
    match o
    case NoOptions => false
    case UseCapture(flag) => flag
    case Dictionary(capture, _, _) => capture
  }

  function OnceOf(o: Options): bool {
    o.Dictionary? && o.once
  }

  function PassiveOf(o: Options): bool {
    o.Dictionary? && o.passive
  }

  /** One registered listener: a trigger closure on a node. */
  datatype Listener = Listener(host: Node, eventType: string, trigger: Trigger, capture: bool, once: bool, passive: bool)

  /** What identifies a listener to `removeEventListener`. */
  datatype ListenerKey = ListenerKey(host: Node, eventType: string, triggerId: nat, capture: bool)

  function KeyOf(l: Listener): ListenerKey {
    ListenerKey(l.host, l.eventType, l.trigger.id, l.capture)
  }

  /** The removal keys of `ls`, in order. */
  function Keys(ls: seq<Listener>): (ks: seq<ListenerKey>)
    ensures |ks| == |ls|
  {
    seq(|ls|, i requires 0 <= i < |ls| => KeyOf(ls[i]))
  }

  /** The key at each position is that listener's key. */
  lemma {:induction false} KeysAt(ls: seq<Listener>, i: nat)
    requires i < |ls|
    ensures Keys(ls)[i] == KeyOf(ls[i])
  {
  }

  lemma KeysAppend(a: seq<Listener>, b: seq<Listener>)
    ensures Keys(a + b) == Keys(a) + Keys(b)
  {
  }

  /** Every key of `ls` is the key of one of its listeners, and every listener's key is among them. */
  lemma KeysMembers(ls: seq<Listener>)
    ensures forall k :: k in Keys(ls) <==> exists l :: l in ls && KeyOf(l) == k
  {
    forall k | k in Keys(ls) ensures exists l :: l in ls && KeyOf(l) == k {
      var i :| 0 <= i < |Keys(ls)| && Keys(ls)[i] == k;
      KeysAt(ls, i);
    }
    forall l | l in ls ensures KeyOf(l) in Keys(ls) {
      var i :| 0 <= i < |ls| && ls[i] == l;
      KeysAt(ls, i);
    }
  }

  predicate Registered(entries: seq<Listener>, k: ListenerKey) {
    exists i :: 0 <= i < |entries| && KeyOf(entries[i]) == k
  }

  /** `addEventListener`: append, unless a listener with the same identity is there already. */
  function Added(entries: seq<Listener>, l: Listener): seq<Listener> {
    if Registered(entries, KeyOf(l)) then entries else entries + [l]
  }

  /** The listeners whose key is not in `ks`, in their original order. */
  function Without(entries: seq<Listener>, ks: set<ListenerKey>): (r: seq<Listener>)
    ensures |r| <= |entries|
    ensures forall l :: l in r <==> l in entries && KeyOf(l) !in ks
  {
    if entries == [] then []
    else if KeyOf(entries[0]) in ks then Without(entries[1..], ks)
    else [entries[0]] + Without(entries[1..], ks)
  }

  /** `removeEventListener`: drop the listener with key `k`, if any. */
  function Removed(entries: seq<Listener>, k: ListenerKey): seq<Listener> {
    Without(entries, {k})
  }

  /** Calling the removal functions `offs` last to first, as `Controller.disconnect` pops them. */
  function Drain(entries: seq<Listener>, offs: seq<ListenerKey>): seq<Listener>
    decreases |offs|
  {
    if offs == [] then entries
    else Drain(Removed(entries, offs[|offs| - 1]), offs[..|offs| - 1])
  }

  // ---------------------------------------------------------------------
  // Properties of the listener list
  // ---------------------------------------------------------------------

  /** Removing by a key leaves no listener with that key and keeps every other listener. */
  lemma RemovedExactly(entries: seq<Listener>, k: ListenerKey)
    ensures !Registered(Removed(entries, k), k)
    ensures forall l :: l in entries && KeyOf(l) != k ==> l in Removed(entries, k)
  {
  }

  lemma {:induction false} WithoutAppend(a: seq<Listener>, b: seq<Listener>, ks: set<ListenerKey>)
    ensures Without(a + b, ks) == Without(a, ks) + Without(b, ks)
  {
    if a == [] {
      assert a + b == b;
    } else {
      var ab := a + b;
      assert ab[0] == a[0] && ab[1..] == a[1..] + b;
      WithoutAppend(a[1..], b, ks);
      if KeyOf(a[0]) in ks {
        assert Without(ab, ks) == Without(a[1..] + b, ks);
      } else {
        assert Without(ab, ks) == [a[0]] + Without(a[1..] + b, ks);
        assert Without(a, ks) == [a[0]] + Without(a[1..], ks);
      }
    }
  }

  lemma {:induction false} WithoutNothing(entries: seq<Listener>, ks: set<ListenerKey>)
    requires forall i :: 0 <= i < |entries| ==> KeyOf(entries[i]) !in ks
    ensures Without(entries, ks) == entries
  {
    if entries != [] {
      WithoutNothing(entries[1..], ks);
    }
  }

  lemma {:induction false} WithoutEverything(entries: seq<Listener>, ks: set<ListenerKey>)
    requires forall i :: 0 <= i < |entries| ==> KeyOf(entries[i]) in ks
    ensures Without(entries, ks) == []
  {
    if entries != [] {
      WithoutEverything(entries[1..], ks);
    }
  }

  /** Removing one key set and then another is removing their union. */
  lemma {:induction false} WithoutWithout(entries: seq<Listener>, a: set<ListenerKey>, b: set<ListenerKey>)
    ensures Without(Without(entries, a), b) == Without(entries, a + b)
  {
    if entries != [] {
      WithoutWithout(entries[1..], a, b);
      if KeyOf(entries[0]) !in a {
        assert Without(entries, a) == [entries[0]] + Without(entries[1..], a);
        assert ([entries[0]] + Without(entries[1..], a))[1..] == Without(entries[1..], a);
      }
    }
  }

  /**
    Popping and calling every removal function leaves exactly the listeners
    whose key none of them names: the order of removal does not matter.
  */
  lemma {:induction false} DrainIsWithout(entries: seq<Listener>, offs: seq<ListenerKey>)
    ensures Drain(entries, offs) == Without(entries, set k | k in offs)
    decreases |offs|
  {
    if offs == [] {
      WithoutNothing(entries, {});
      assert (set k | k in offs) == {};
    } else {
      var last := offs[|offs| - 1];
      var init := offs[..|offs| - 1];
      DrainIsWithout(Removed(entries, last), init);
      WithoutWithout(entries, {last}, set k | k in init);
      assert {last} + (set k | k in init) == set k | k in offs by {
        assert offs == init + [last];
      }
    }
  }

  /** Adding a fresh listener and then removing it by its own key restores the list. */
  lemma {:induction false} AddThenRemove(entries: seq<Listener>, l: Listener)
    requires !Registered(entries, KeyOf(l))
    ensures Removed(Added(entries, l), KeyOf(l)) == entries
  {
    WithoutAppend(entries, [l], {KeyOf(l)});
    WithoutNothing(entries, {KeyOf(l)});
    assert Without([l], {KeyOf(l)}) == [];
  }

  /** Adding the same listener twice is adding it once. */
  lemma {:induction false} AddIdempotent(entries: seq<Listener>, l: Listener)
    ensures Added(Added(entries, l), l) == Added(entries, l)
  {
    if !Registered(entries, KeyOf(l)) {
      var r := entries + [l];
      assert KeyOf(r[|entries|]) == KeyOf(l);
    }
  }

  // ---------------------------------------------------------------------
  // The registry
  // ---------------------------------------------------------------------

  /** Every event target's listener list, plus the count of trigger closures created so far. */
  class ListenerRegistry {
    var entries: seq<Listener>
    /** How many trigger closures exist; a new closure gets the next number, so it is distinct from every earlier one. */
    var issued: nat

    /** Only closures that have been created can be registered. */
    predicate Valid()
      reads this
    {
      forall l :: l in entries ==> l.trigger.id < issued
    }

    constructor ()
      ensures entries == [] && issued == 0 && Valid()
    {
      entries := [];
      issued := 0;
    }

    /** Creating a trigger closure: its identity is new. */
    method NewTriggerId() returns (id: nat)
      requires Valid()
      modifies this
      ensures id == old(issued) && issued == old(issued) + 1
      ensures entries == old(entries)
      ensures Valid()
      ensures forall l :: l in entries ==> l.trigger.id != id
    {
      id := issued;
      issued := issued + 1;
    }

    method AddEventListener(host: Node, eventType: string, trigger: Trigger, options: Options)
      requires Valid() && trigger.id < issued
      modifies this
      ensures entries == Added(old(entries), Listener(host, eventType, trigger, CaptureOf(options), OnceOf(options), PassiveOf(options)))
      ensures issued == old(issued)
      ensures Valid()
    {
      var l := Listener(host, eventType, trigger, CaptureOf(options), OnceOf(options), PassiveOf(options));
      if !Registered(entries, KeyOf(l)) {
        entries := entries + [l];
      }
    }

    method RemoveEventListener(host: Node, eventType: string, triggerId: nat, capture: bool)
      requires Valid()
      modifies this
      ensures entries == Removed(old(entries), ListenerKey(host, eventType, triggerId, capture))
      ensures issued == old(issued)
      ensures Valid()
    {
      var old_entries := entries;
      entries := Removed(entries, ListenerKey(host, eventType, triggerId, capture));
      assert forall l :: l in entries ==> l in old_entries;
    }
  }

  /** A list where every closure is older than `bound` has no listener of a newer closure. */
  lemma {:induction false} OlderNotRegistered(entries: seq<Listener>, bound: nat, k: ListenerKey)
    requires forall i :: 0 <= i < |entries| ==> entries[i].trigger.id < bound
    requires k.triggerId >= bound
    ensures !Registered(entries, k)
  {
  }
}
