/**
  The `Application` class: the registry of controller classes, the counter
  that numbers elements, the table from an element's `data-controller-id` to
  the controllers connected to it, and the operations that connect and
  disconnect controllers as elements come and go (src/index.ts:95-255).
*/
module Applications {
  import opened Optional
  import opened JsStrings
  import opened Dom
  import opened Conditions
  import opened Listeners
  import opened Controllers

  /** What `connect` reports through `console.error` for a name nobody registered; the message text is not modelled. */
  datatype LogEntry = ControllerNotFound(identifier: string, element: ElementId)

  /** A `MutationRecord`, reduced to the nodes it added and the nodes it removed. */
  datatype MutationRecord = MutationRecord(addedNodes: seq<Node>, removedNodes: seq<Node>)

  /** The per-element operations of an application, in the order they run. */
  datatype Call = Connected(element: ElementId) | Disconnected(element: ElementId)

  /** A controller as `connect` sees it: the name it was listed under and its class. */
  datatype Admission = Admission(identifier: string, cls: ControllerClass)

  // ---------------------------------------------------------------------
  // What `connect` reads from an element
  // ---------------------------------------------------------------------

  /** `element.dataset.controller?.split(/ +/).filter(Boolean)`, with a missing attribute giving no names. */
  function ControllerNames(ds: Dataset): (names: seq<string>)
    ensures forall i :: 0 <= i < |names| ==> names[i] != "" && ' ' !in names[i]
  {
    if "controller" in ds then
      SplitSpacesNoSpaces(ds["controller"]);
      NonEmpty(SplitSpaces(ds["controller"]))
    else []
  }

  /** Dropping the empty pieces does not change what they spell together. */
  lemma {:induction false} ConcatNonEmpty(pieces: seq<string>)
    ensures Concat(NonEmpty(pieces)) == Concat(pieces)
    decreases |pieces|
  {
    if pieces != [] {
      var head, tail := pieces[0], pieces[1..];
      ConcatNonEmpty(tail);
      assert Concat(pieces) == head + Concat(tail);
      if head == "" {
        assert NonEmpty(pieces) == NonEmpty(tail);
      } else {
        assert NonEmpty(pieces) == [head] + NonEmpty(tail);
        ConcatCons(head, NonEmpty(tail));
      }
    }
  }

  /** The names listed in `data-controller` spell the attribute without its spaces: nothing but spaces separates them. */
  lemma ControllerNamesSpellAttribute(ds: Dataset)
    requires "controller" in ds
    ensures Concat(ControllerNames(ds)) == WithoutSpaces(ds["controller"])
  {
    ConcatNonEmpty(SplitSpaces(ds["controller"]));
    SplitSpacesConcat(ds["controller"]);
  }

  /**
    The names are exactly the words of the attribute: for words set apart by
    runs of spaces (an empty first or last word standing for leading or
    trailing spaces), the non-empty words in order, and all of them when
    none is empty.
  */
  lemma ControllerNamesAreWords(ds: Dataset, words: seq<string>, gaps: seq<string>)
    requires |words| >= 1 && |gaps| == |words| - 1
    requires SpaceFree(words) && InnerNonEmpty(words)
    requires forall i :: 0 <= i < |gaps| ==> Gap(gaps[i])
    requires "controller" in ds && ds["controller"] == Spaced(words, gaps)
    ensures ControllerNames(ds) == NonEmpty(words)
    ensures (forall i :: 0 <= i < |words| ==> words[i] != "") ==> ControllerNames(ds) == words
  {
    SplitSpacesSpaced(words, gaps);
    if forall i :: 0 <= i < |words| ==> words[i] != "" {
      NonEmptyKeepsAll(words);
    }
  }

  /** `element.dataset.controllerId || this.newControllerId()`, the counter being at `counter`. */
  function AssignedId(ds: Dataset, counter: nat): (id: string)
    ensures id != ""
  {
    if Truthy(ds, "controller-id") then ds["controller-id"] else NatToString(counter + 1)
  }

  /** An element keeps the id it was given: once written back, the same id is read on every later `connect`. */
  lemma ReconnectKeepsId(ds: Dataset, counter: nat, later: nat)
    ensures var id := AssignedId(ds, counter);
            AssignedId(ds["controller-id" := id], later) == id
  {
  }

  /** A persisted id is used as it is; only an element without one takes the next number. */
  lemma AssignedIdCases(ds: Dataset, counter: nat)
    ensures Truthy(ds, "controller-id") ==> AssignedId(ds, counter) == ds["controller-id"]
    ensures !Truthy(ds, "controller-id") ==> AssignedId(ds, counter) == NatToString(counter + 1)
  {
  }

  // ---------------------------------------------------------------------
  // Which controllers `connect` creates
  // ---------------------------------------------------------------------

  /** `controllers.some((c) => c instanceof controllerClass)`. */
  predicate AnyInstance(present: seq<Admission>, cls: ControllerClass) {
    exists i :: 0 <= i < |present| && InstanceOf(present[i].cls, cls)
  }

  /**
    The controller `connect` creates for the name `n` when the slot holds
    `present`: none when the name is not registered or the slot already
    holds an instance of its class.
  */
  function Admit(regs: map<string, ControllerClass>, present: seq<Admission>, n: string): (adm: seq<Admission>)
    ensures |adm| <= 1
  {
    if n in regs && !AnyInstance(present, regs[n]) then [Admission(n, regs[n])] else []
  }

  /**
    The controllers `connect` creates for `names` when the element's slot
    already holds `present`, in order: each name is admitted against the
    slot including what this call added before it.
  */
  function Admitted(regs: map<string, ControllerClass>, present: seq<Admission>, names: seq<string>): (adm: seq<Admission>)
    ensures |adm| <= |names|
    decreases |names|
  {
    if names == [] then []
    else
      var prior := Admitted(regs, present, names[..|names| - 1]);
      prior + Admit(regs, present + prior, names[|names| - 1])
  }

  /** The log entries `connect` writes for `names`: one per unregistered name, in order. */
  function Missing(regs: map<string, ControllerClass>, names: seq<string>, el: ElementId): seq<LogEntry>
    decreases |names|
  {
    if names == [] then []
    else
      var n := names[|names| - 1];
      Missing(regs, names[..|names| - 1], el) + (if n in regs then [] else [ControllerNotFound(n, el)])
  }

  /** The log names exactly the unregistered names, all for the element being connected. */
  lemma {:induction false} MissingExactly(regs: map<string, ControllerClass>, names: seq<string>, el: ElementId)
    ensures var log := Missing(regs, names, el);
            && (forall i :: 0 <= i < |log| ==> log[i].element == el && log[i].identifier in names && log[i].identifier !in regs)
            && (forall n :: n in names && n !in regs ==> ControllerNotFound(n, el) in log)
    decreases |names|
  {
    if names != [] {
      var init := names[..|names| - 1];
      var n := names[|names| - 1];
      MissingExactly(regs, init, el);
      assert names == init + [n];
    }
  }

  // ---------------------------------------------------------------------
  // Properties of admission
  // ---------------------------------------------------------------------

  /** An instance stays an instance when more controllers join the slot. */
  lemma AnyInstanceAppend(present: seq<Admission>, more: seq<Admission>, cls: ControllerClass)
    requires AnyInstance(present, cls)
    ensures AnyInstance(present + more, cls)
  {
    var i :| 0 <= i < |present| && InstanceOf(present[i].cls, cls);
    assert (present + more)[i] == present[i];
  }

  /**
    After `connect`, every registered name it was given has an instance of
    its class in the slot, provided every class is an instance of itself.
  */
  lemma {:induction false} AdmittedCovers(regs: map<string, ControllerClass>, present: seq<Admission>, names: seq<string>)
    requires forall n :: n in regs ==> regs[n].classId in regs[n].lineage
    ensures forall n :: n in names && n in regs ==> AnyInstance(present + Admitted(regs, present, names), regs[n])
    decreases |names|
  {
    if names != [] {
      var init := names[..|names| - 1];
      var last := names[|names| - 1];
      var prior := Admitted(regs, present, init);
      AdmittedCovers(regs, present, init);
      var adm := Admitted(regs, present, names);
      forall n | n in names && n in regs ensures AnyInstance(present + adm, regs[n]) {
        if n in init {
          AnyInstanceAppend(present + prior, adm[|prior|..], regs[n]);
          assert present + prior + adm[|prior|..] == present + adm;
        } else {
          assert names == init + [last];
          assert n == last;
          if !AnyInstance(present + prior, regs[n]) {
            assert (present + adm)[|present| + |prior|] == Admission(n, regs[n]);
          } else {
            assert adm == prior;
          }
        }
      }
    }
  }

  /** When every registered name already has an instance in the slot, `connect` creates nothing. */
  lemma {:induction false} AdmittedNone(regs: map<string, ControllerClass>, present: seq<Admission>, names: seq<string>)
    requires forall n :: n in names && n in regs ==> AnyInstance(present, regs[n])
    ensures Admitted(regs, present, names) == []
    decreases |names|
  {
    if names != [] {
      var init := names[..|names| - 1];
      assert forall n :: n in init ==> n in names;
      AdmittedNone(regs, present, init);
      assert present + [] == present;
    }
  }

  /** Connecting an element a second time creates no controller: the first time covered every name. */
  lemma ConnectAgainAdmitsNothing(regs: map<string, ControllerClass>, present: seq<Admission>, names: seq<string>)
    requires forall n :: n in regs ==> regs[n].classId in regs[n].lineage
    ensures Admitted(regs, present + Admitted(regs, present, names), names) == []
  {
    AdmittedCovers(regs, present, names);
    AdmittedNone(regs, present + Admitted(regs, present, names), names);
  }

  /** Two names registered to classes of the same lineage create one controller: the second finds the first. */
  lemma SameClassTwiceAdmittedOnce(regs: map<string, ControllerClass>, a: string, b: string)
    requires a in regs && b in regs && InstanceOf(regs[a], regs[b])
    ensures Admitted(regs, [], [a, b]) == [Admission(a, regs[a])]
  {
    assert [a, b][..1] == [a];
    assert [a][..0] == [];
    var prior := Admitted(regs, [], [a]);
    assert prior == [Admission(a, regs[a])];
    var none: seq<Admission> := [];
    assert (none + prior)[0].cls == regs[a];
  }

  // ---------------------------------------------------------------------
  // One step of `connect`
  // ---------------------------------------------------------------------

  lemma AdmittedStep(regs: map<string, ControllerClass>, present: seq<Admission>, names: seq<string>, i: nat)
    requires i < |names|
    ensures var prior := Admitted(regs, present, names[..i]);
            Admitted(regs, present, names[..i + 1]) == prior + Admit(regs, present + prior, names[i])
  {
    assert names[..i + 1][..i] == names[..i];
  }

  lemma MissingStep(regs: map<string, ControllerClass>, names: seq<string>, el: ElementId, i: nat)
    requires i < |names|
    ensures Missing(regs, names[..i + 1], el)
         == Missing(regs, names[..i], el) + (if names[i] in regs then [] else [ControllerNotFound(names[i], el)])
  {
    assert names[..i + 1][..i] == names[..i];
  }

  /** One name more: the log gains that name's entry, if it is not registered. */
  lemma LogNext(regs: map<string, ControllerClass>, names: seq<string>, i: nat, el: ElementId,
                log0: seq<LogEntry>, log1: seq<LogEntry>, log2: seq<LogEntry>)
    requires i < |names|
    requires log1 == log0 + Missing(regs, names[..i], el)
    requires log2 == log1 + (if names[i] in regs then [] else [ControllerNotFound(names[i], el)])
    ensures log2 == log0 + Missing(regs, names[..i + 1], el)
  {
    MissingStep(regs, names, el, i);
  }

  /** One name more: the controllers added so far, followed by the one this name admits, are the admissions up to it. */
  lemma SlotNext(regs: map<string, ControllerClass>, slot0: seq<Controller>, names: seq<string>, i: nat, el: ElementId,
                 added: seq<Controller>, more: seq<Controller>)
    requires i < |names|
    requires AdmissionsOf(added) == Admitted(regs, AdmissionsOf(slot0), names[..i]) && AttachedTo(added, el)
    requires AdmissionsOf(more) == Admit(regs, AdmissionsOf(slot0 + added), names[i]) && AttachedTo(more, el)
    ensures AdmissionsOf(added + more) == Admitted(regs, AdmissionsOf(slot0), names[..i + 1])
    ensures AttachedTo(added + more, el)
  {
    AdmissionsOfConcat(slot0, added);
    AdmissionsOfConcat(added, more);
    AdmittedStep(regs, AdmissionsOf(slot0), names, i);
    AttachedToConcat(added, more, el);
  }

  /** Every admitted controller is of the class registered under its name. */
  lemma {:induction false} AdmittedRegistered(regs: map<string, ControllerClass>, present: seq<Admission>, names: seq<string>)
    ensures forall a :: a in Admitted(regs, present, names) ==> a.identifier in regs && a.cls == regs[a.identifier]
    decreases |names|
  {
    if names != [] {
      var prior := Admitted(regs, present, names[..|names| - 1]);
      var step := Admit(regs, present + prior, names[|names| - 1]);
      AdmittedRegistered(regs, present, names[..|names| - 1]);
      assert Admitted(regs, present, names) == prior + step;
      forall a: Admission | a in prior + step ensures a.identifier in regs && a.cls == regs[a.identifier] {
        if a !in prior {
          assert a == step[0];
        }
      }
    }
  }

  /** The controllers of a slot, as admissions. */
  function AdmissionsOf(cs: seq<Controller>): (r: seq<Admission>)
    ensures |r| == |cs|
    decreases |cs|
  {
    if cs == [] then [] else AdmissionsOf(cs[..|cs| - 1]) + [Admission(cs[|cs| - 1].identifier, cs[|cs| - 1].classOf)]
  }

  lemma AdmissionsOfAppend(cs: seq<Controller>, c: Controller)
    ensures AdmissionsOf(cs + [c]) == AdmissionsOf(cs) + [Admission(c.identifier, c.classOf)]
  {
    assert (cs + [c])[..|cs|] == cs;
  }

  lemma {:induction false} AdmissionsOfConcat(a: seq<Controller>, b: seq<Controller>)
    ensures AdmissionsOf(a + b) == AdmissionsOf(a) + AdmissionsOf(b)
    decreases |b|
  {
    if b == [] {
      assert a + b == a;
    } else {
      var init := b[..|b| - 1];
      AdmissionsOfConcat(a, init);
      assert (a + b)[..|a + b| - 1] == a + init;
    }
  }

  /** Each controller of the slot appears, at its own position, as its name and class. */
  lemma {:induction false} AdmissionsOfAt(cs: seq<Controller>, i: nat)
    requires i < |cs|
    ensures AdmissionsOf(cs)[i] == Admission(cs[i].identifier, cs[i].classOf)
    decreases |cs|
  {
    if i < |cs| - 1 {
      AdmissionsOfAt(cs[..|cs| - 1], i);
    }
  }

  /** What the `connect()` calls of the controllers of `cs` registered, one controller after another. */
  ghost function InstalledBy(cs: seq<Controller>): seq<Listener>
    reads set c | c in cs
    decreases |cs|
  {
    if cs == [] then [] else InstalledBy(cs[..|cs| - 1]) + cs[|cs| - 1].installed
  }

  lemma {:induction false} InstalledByConcat(a: seq<Controller>, b: seq<Controller>)
    ensures InstalledBy(a + b) == InstalledBy(a) + InstalledBy(b)
    decreases |b|
  {
    if b == [] {
      assert a + b == a;
    } else {
      var init := b[..|b| - 1];
      InstalledByConcat(a, init);
      assert (a + b)[..|a + b| - 1] == a + init;
    }
  }

  /**
    The controller ran its class's `connect()`: it registered what the
    class's `on` calls register, numbering trigger closures from `firstId`,
    and holds one removal function per listener.
  */
  ghost predicate RanConnect(c: Controller, tm: TargetMapping)
    reads c
  {
    && WellFormedClass(c.classOf)
    && c.installed == ConnectListeners(c.identifier, c.element, tm, c.classOf.bindings, c.firstId)
    && c.listeners == Keys(c.installed)
  }

  /** Every controller of `cs` ran its class's `connect()`. */
  ghost predicate AllRanConnect(cs: seq<Controller>, tm: TargetMapping)
    reads set c | c in cs
    decreases |cs|
  {
    cs == [] || (AllRanConnect(cs[..|cs| - 1], tm) && RanConnect(cs[|cs| - 1], tm))
  }

  lemma {:induction false} AllRanConnectConcat(a: seq<Controller>, b: seq<Controller>, tm: TargetMapping)
    requires AllRanConnect(a, tm) && AllRanConnect(b, tm)
    ensures AllRanConnect(a + b, tm)
    decreases |b|
  {
    if b == [] {
      assert a + b == a;
    } else {
      var init := b[..|b| - 1];
      AllRanConnectConcat(a, init, tm);
      assert (a + b)[..|a + b| - 1] == a + init;
    }
  }

  /** Every controller of `cs` is attached to the element `el`. */
  predicate AttachedTo(cs: seq<Controller>, el: ElementId)
    decreases |cs|
  {
    cs == [] || (AttachedTo(cs[..|cs| - 1], el) && cs[|cs| - 1].element == el)
  }

  lemma {:induction false} AttachedToConcat(a: seq<Controller>, b: seq<Controller>, el: ElementId)
    requires AttachedTo(a, el) && AttachedTo(b, el)
    ensures AttachedTo(a + b, el)
    decreases |b|
  {
    if b == [] {
      assert a + b == a;
    } else {
      var init := b[..|b| - 1];
      AttachedToConcat(a, init, el);
      assert (a + b)[..|a + b| - 1] == a + init;
    }
  }

  lemma UpdateTwice<K, V>(m: map<K, V>, k: K, a: V, b: V)
    ensures m[k := a][k := b] == m[k := b]
  {
  }

  /** `this.associations.get(id) || []`. */
  function SlotOf(associations: map<string, seq<Controller>>, id: string): seq<Controller> {
    if id in associations then associations[id] else []
  }

  // ---------------------------------------------------------------------
  // What `connectAll` and `disconnect` visit
  // ---------------------------------------------------------------------

  /** `querySelectorAll("[data-name]")` over a list of descendants: those carrying the attribute, even empty, in order. */
  function Carrying(data: map<ElementId, Dataset>, els: seq<ElementId>, name: string): (r: seq<ElementId>)
    ensures forall e :: e in r <==> e in els && name in DatasetIn(data, e)
    decreases |els|
  {
    if els == [] then []
    else
      var init, last := els[..|els| - 1], els[|els| - 1];
      assert els == init + [last];
      if name in DatasetIn(data, last) then Carrying(data, init, name) + [last] else Carrying(data, init, name)
  }

  /**
    The selector keeps document order: the elements carrying the attribute in
    `a + b` are those of `a`, then those of `b`.
  */
  lemma {:induction false} CarryingConcat(data: map<ElementId, Dataset>, a: seq<ElementId>, b: seq<ElementId>, name: string)
    ensures Carrying(data, a + b, name) == Carrying(data, a, name) + Carrying(data, b, name)
    decreases |b|
  {
    if b == [] {
      assert a + b == a;
    } else {
      var init := b[..|b| - 1];
      CarryingConcat(data, a, init, name);
      assert (a + b)[..|a + b| - 1] == a + init;
    }
  }

  /** The `data-controller-id` values of `nodes` that are truthy, in order: the slots `disconnect` drops. */
  function IdsOf(data: map<ElementId, Dataset>, nodes: seq<ElementId>): (ids: seq<string>)
    decreases |nodes|
  {
    if nodes == [] then []
    else
      var init, ds := nodes[..|nodes| - 1], DatasetIn(data, nodes[|nodes| - 1]);
      if Truthy(ds, "controller-id") then IdsOf(data, init) + [ds["controller-id"]] else IdsOf(data, init)
  }

  /** The ids `disconnect(el)` drops are exactly the truthy `data-controller-id` values of the elements it visits. */
  lemma {:induction false} IdsOfMembers(data: map<ElementId, Dataset>, nodes: seq<ElementId>)
    ensures forall id :: id in IdsOf(data, nodes) <==>
              exists n :: n in nodes && Truthy(DatasetIn(data, n), "controller-id") && DatasetIn(data, n)["controller-id"] == id
    decreases |nodes|
  {
    if nodes != [] {
      var init, last := nodes[..|nodes| - 1], nodes[|nodes| - 1];
      IdsOfMembers(data, init);
      assert nodes == init + [last];
      forall id ensures id in IdsOf(data, nodes) <==>
                exists n :: n in nodes && Truthy(DatasetIn(data, n), "controller-id") && DatasetIn(data, n)["controller-id"] == id {
        if id in IdsOf(data, nodes) && id !in IdsOf(data, init) {
          assert Truthy(DatasetIn(data, last), "controller-id") && DatasetIn(data, last)["controller-id"] == id;
        }
      }
    }
  }

  /** One node more: its truthy `data-controller-id`, if any, joins the ids. */
  lemma IdsOfStep(data: map<ElementId, Dataset>, nodes: seq<ElementId>, i: nat)
    requires i < |nodes|
    ensures IdsOf(data, nodes[..i + 1]) == IdsOf(data, nodes[..i])
              + (if Truthy(DatasetIn(data, nodes[i]), "controller-id") then [DatasetIn(data, nodes[i])["controller-id"]] else [])
  {
    assert nodes[..i + 1][..i] == nodes[..i];
  }

  /** The elements `disconnect(el)` visits: `el`, then its descendants carrying `data-controller-id`. */
  function DisconnectNodes(data: map<ElementId, Dataset>, descendants: seq<ElementId>, el: ElementId): (r: seq<ElementId>)
    ensures |r| >= 1 && r[0] == el
    ensures forall e :: e in r[1..] <==> e in descendants && "controller-id" in DatasetIn(data, e)
  {
    [el] + Carrying(data, descendants, "controller-id")
  }

  /** The elements `connectAll(el)` visits: `el`, then its descendants carrying `data-controller`. */
  function ConnectNodes(data: map<ElementId, Dataset>, descendants: seq<ElementId>, el: ElementId): (r: seq<ElementId>)
    ensures |r| >= 1 && r[0] == el
    ensures forall e :: e in r[1..] <==> e in descendants && "controller" in DatasetIn(data, e)
  {
    [el] + Carrying(data, descendants, "controller")
  }

  /** An element has a truthy `data-controller-id` that names a slot of `associations`. */
  predicate HasSlot(data: map<ElementId, Dataset>, associations: map<string, seq<Controller>>, e: ElementId) {
    Truthy(DatasetIn(data, e), "controller-id") && DatasetIn(data, e)["controller-id"] in associations
  }

  /**
    Every element that had a slot under `(d0, a0)` still has one under
    `(d1, a1)`, under the same id, and its slot only grew at the end.
  */
  ghost predicate SlotsKept(d0: map<ElementId, Dataset>, a0: map<string, seq<Controller>>,
                            d1: map<ElementId, Dataset>, a1: map<string, seq<Controller>>) {
    forall e :: HasSlot(d0, a0, e) ==>
      && HasSlot(d1, a1, e)
      && DatasetIn(d1, e)["controller-id"] == DatasetIn(d0, e)["controller-id"]
      && a0[DatasetIn(d0, e)["controller-id"]] <= a1[DatasetIn(d0, e)["controller-id"]]
  }

  lemma SlotsKeptRefl(d: map<ElementId, Dataset>, a: map<string, seq<Controller>>)
    ensures SlotsKept(d, a, d, a)
  {
  }

  lemma SlotsKeptTrans(d0: map<ElementId, Dataset>, a0: map<string, seq<Controller>>,
                       d1: map<ElementId, Dataset>, a1: map<string, seq<Controller>>,
                       d2: map<ElementId, Dataset>, a2: map<string, seq<Controller>>)
    requires SlotsKept(d0, a0, d1, a1) && SlotsKept(d1, a1, d2, a2)
    ensures SlotsKept(d0, a0, d2, a2)
  {
  }

  /**
    One `connect(el)`, as its contract states it: the element gets `id`
    (its own, when it had a truthy one) and its slot grows by `added`.
    Every slot survives, and `el` now has one.
  */
  lemma ConnectKeepsSlots(d: map<ElementId, Dataset>, a: map<string, seq<Controller>>, el: ElementId, id: string, added: seq<Controller>)
    requires id != ""
    requires Truthy(DatasetIn(d, el), "controller-id") ==> id == DatasetIn(d, el)["controller-id"]
    ensures var d' := d[el := DatasetIn(d, el)["controller-id" := id]];
            var a' := a[id := SlotOf(a, id) + added];
            SlotsKept(d, a, d', a') && HasSlot(d', a', el)
  {
    var d' := d[el := DatasetIn(d, el)["controller-id" := id]];
    var a' := a[id := SlotOf(a, id) + added];
    forall e | HasSlot(d, a, e)
      ensures && HasSlot(d', a', e)
              && DatasetIn(d', e)["controller-id"] == DatasetIn(d, e)["controller-id"]
              && a[DatasetIn(d, e)["controller-id"]] <= a'[DatasetIn(d, e)["controller-id"]]
    {
      var k := DatasetIn(d, e)["controller-id"];
      if k == id {
        assert a'[k] == a[k] + added;
      }
    }
    assert DatasetIn(d', el)["controller-id"] == id;
  }

  /** An instance in a slot stays there when the slot grows at the end. */
  lemma AnyInstancePrefix(cs0: seq<Controller>, cs1: seq<Controller>, cls: ControllerClass)
    requires cs0 <= cs1 && AnyInstance(AdmissionsOf(cs0), cls)
    ensures AnyInstance(AdmissionsOf(cs1), cls)
  {
    assert cs1 == cs0 + cs1[|cs0|..];
    AdmissionsOfConcat(cs0, cs1[|cs0|..]);
    AnyInstanceAppend(AdmissionsOf(cs0), AdmissionsOf(cs1[|cs0|..]), cls);
  }

  /**
    What `connect(e)` leaves behind: `e` has a slot, and the slot holds an
    instance of the class of every registered name its `data-controller`
    lists.
  */
  ghost predicate Covered(regs: map<string, ControllerClass>, data: map<ElementId, Dataset>,
                          associations: map<string, seq<Controller>>, e: ElementId) {
    && HasSlot(data, associations, e)
    && forall n :: n in ControllerNames(DatasetIn(data, e)) && n in regs ==>
         AnyInstance(AdmissionsOf(associations[DatasetIn(data, e)["controller-id"]]), regs[n])
  }

  /** One `connect(el)` covers `el`, provided every registered class is an instance of itself. */
  lemma ConnectCovers(regs: map<string, ControllerClass>, d: map<ElementId, Dataset>, a: map<string, seq<Controller>>,
                      el: ElementId, id: string, added: seq<Controller>)
    requires forall n :: n in regs ==> regs[n].classId in regs[n].lineage
    requires id != ""
    requires AdmissionsOf(added) == Admitted(regs, AdmissionsOf(SlotOf(a, id)), ControllerNames(DatasetIn(d, el)))
    ensures Covered(regs, d[el := DatasetIn(d, el)["controller-id" := id]], a[id := SlotOf(a, id) + added], el)
  {
    var d' := d[el := DatasetIn(d, el)["controller-id" := id]];
    var a' := a[id := SlotOf(a, id) + added];
    SetIdKeepsControllerAttrs(d, el, id);
    assert ControllerAttr(DatasetIn(d, el)) == ControllerAttr(DatasetIn(d', el));
    AgreeOnController(DatasetIn(d, el), DatasetIn(d', el));
    AdmittedCovers(regs, AdmissionsOf(SlotOf(a, id)), ControllerNames(DatasetIn(d, el)));
    AdmissionsOfConcat(SlotOf(a, id), added);
    assert a'[DatasetIn(d', el)["controller-id"]] == SlotOf(a, id) + added;
  }

  /** Coverage survives later connects, which keep every slot and every `data-controller`. */
  lemma CoveredKept(regs: map<string, ControllerClass>, d: map<ElementId, Dataset>, a: map<string, seq<Controller>>,
                    d': map<ElementId, Dataset>, a': map<string, seq<Controller>>, e: ElementId)
    requires Covered(regs, d, a, e) && SlotsKept(d, a, d', a') && SameControllerAttrs(d, d')
    ensures Covered(regs, d', a', e)
  {
    var k := DatasetIn(d, e)["controller-id"];
    assert ControllerAttr(DatasetIn(d, e)) == ControllerAttr(DatasetIn(d', e));
    AgreeOnController(DatasetIn(d, e), DatasetIn(d', e));
    forall n | n in ControllerNames(DatasetIn(d', e)) && n in regs
      ensures AnyInstance(AdmissionsOf(a'[DatasetIn(d', e)["controller-id"]]), regs[n])
    {
      AnyInstancePrefix(a[k], a'[k], regs[n]);
    }
  }

  /** Every element of `nodes` with a truthy `data-controller` under `d0` is covered under `(data, associations)`. */
  ghost predicate CoveredAll(regs: map<string, ControllerClass>, d0: map<ElementId, Dataset>, nodes: seq<ElementId>,
                             data: map<ElementId, Dataset>, associations: map<string, seq<Controller>>) {
    forall e :: e in nodes && Truthy(DatasetIn(d0, e), "controller") ==> Covered(regs, data, associations, e)
  }

  /** One node more: the earlier ones stay covered and the new one is covered if it was connected. */
  lemma CoveredStep(regs: map<string, ControllerClass>, d0: map<ElementId, Dataset>, nodes: seq<ElementId>, i: nat,
                    d: map<ElementId, Dataset>, a: map<string, seq<Controller>>,
                    d': map<ElementId, Dataset>, a': map<string, seq<Controller>>)
    requires i < |nodes|
    requires CoveredAll(regs, d0, nodes[..i], d, a) && SlotsKept(d, a, d', a')
    requires SameControllerAttrs(d0, d) && SameControllerAttrs(d0, d')
    requires Truthy(DatasetIn(d0, nodes[i]), "controller") ==> Covered(regs, d', a', nodes[i])
    ensures CoveredAll(regs, d0, nodes[..i + 1], d', a')
  {
    assert nodes[..i + 1] == nodes[..i] + [nodes[i]];
    forall x ensures ControllerAttr(DatasetIn(d, x)) == ControllerAttr(DatasetIn(d', x)) {
      assert ControllerAttr(DatasetIn(d0, x)) == ControllerAttr(DatasetIn(d, x));
    }
    forall e | e in nodes[..i + 1] && Truthy(DatasetIn(d0, e), "controller")
      ensures Covered(regs, d', a', e)
    {
      if e in nodes[..i] {
        CoveredKept(regs, d, a, d', a', e);
      }
    }
  }

  /** An element's `data-controller` attribute, if it has one: all that `connectAll` and `connect` read to choose controllers. */
  function ControllerAttr(ds: Dataset): Option<string> {
    if "controller" in ds then Some(ds["controller"]) else None
  }

  /** Two attribute tables give every element the same `data-controller`. */
  ghost predicate SameControllerAttrs(d0: map<ElementId, Dataset>, d1: map<ElementId, Dataset>) {
    forall e :: ControllerAttr(DatasetIn(d0, e)) == ControllerAttr(DatasetIn(d1, e))
  }

  /** Writing an element's `data-controller-id` leaves every `data-controller` as it was. */
  lemma SetIdKeepsControllerAttrs(data: map<ElementId, Dataset>, el: ElementId, id: string)
    ensures SameControllerAttrs(data, data[el := DatasetIn(data, el)["controller-id" := id]])
  {
    var data' := data[el := DatasetIn(data, el)["controller-id" := id]];
    forall e ensures ControllerAttr(DatasetIn(data, e)) == ControllerAttr(DatasetIn(data', e)) {
      if e == el {
        assert "controller-id" != "controller" by { assert |"controller-id"| != |"controller"|; }
      }
    }
  }

  lemma SameControllerAttrsRefl(d: map<ElementId, Dataset>)
    ensures SameControllerAttrs(d, d)
  {
  }

  lemma SameControllerAttrsTrans(d0: map<ElementId, Dataset>, d1: map<ElementId, Dataset>, d2: map<ElementId, Dataset>)
    requires SameControllerAttrs(d0, d1) && SameControllerAttrs(d1, d2)
    ensures SameControllerAttrs(d0, d2)
  {
    forall e ensures ControllerAttr(DatasetIn(d0, e)) == ControllerAttr(DatasetIn(d2, e)) {
      assert ControllerAttr(DatasetIn(d0, e)) == ControllerAttr(DatasetIn(d1, e));
    }
  }

  /** Whether `connect` runs on an element, and which names it reads there, depend on its `data-controller` alone. */
  lemma AgreeOnController(ds0: Dataset, ds1: Dataset)
    requires ControllerAttr(ds0) == ControllerAttr(ds1)
    ensures Truthy(ds0, "controller") == Truthy(ds1, "controller")
    ensures ControllerNames(ds0) == ControllerNames(ds1)
  {
  }

  /** The `connect` calls `connectAll` makes over `nodes`: one per node whose `data-controller` is truthy, in order. */
  function ConnectCalls(data: map<ElementId, Dataset>, nodes: seq<ElementId>): (calls: seq<Call>)
    ensures forall c :: c in calls <==> c.Connected? && c.element in nodes && Truthy(DatasetIn(data, c.element), "controller")
    decreases |nodes|
  {
    if nodes == [] then []
    else
      var init, last := nodes[..|nodes| - 1], nodes[|nodes| - 1];
      assert nodes == init + [last];
      ConnectCalls(data, init) + (if Truthy(DatasetIn(data, last), "controller") then [Connected(last)] else [])
  }

  /** What `connectAll` over `nodes` logs: the unregistered names of each node it connects, node by node. */
  function MissingAll(regs: map<string, ControllerClass>, data: map<ElementId, Dataset>, nodes: seq<ElementId>): seq<LogEntry>
    decreases |nodes|
  {
    if nodes == [] then []
    else
      var init, last := nodes[..|nodes| - 1], nodes[|nodes| - 1];
      var ds := DatasetIn(data, last);
      MissingAll(regs, data, init) + (if Truthy(ds, "controller") then Missing(regs, ControllerNames(ds), last) else [])
  }

  /** Every entry `connectAll` logs is an unregistered name listed on a node it connects. */
  lemma {:induction false} MissingAllUnregistered(regs: map<string, ControllerClass>, data: map<ElementId, Dataset>, nodes: seq<ElementId>)
    ensures forall e :: e in MissingAll(regs, data, nodes) ==>
              && e.identifier !in regs && e.element in nodes && Truthy(DatasetIn(data, e.element), "controller")
              && e.identifier in ControllerNames(DatasetIn(data, e.element))
    decreases |nodes|
  {
    if nodes != [] {
      var init, last := nodes[..|nodes| - 1], nodes[|nodes| - 1];
      var ds := DatasetIn(data, last);
      MissingAllUnregistered(regs, data, init);
      assert nodes == init + [last];
      MissingExactly(regs, ControllerNames(ds), last);
    }
  }

  /** One node more for `connectAll`: its call and its log entries, if it is connected. */
  lemma ConnectCallsStep(regs: map<string, ControllerClass>, data: map<ElementId, Dataset>, nodes: seq<ElementId>, i: nat)
    requires i < |nodes|
    ensures ConnectCalls(data, nodes[..i + 1])
         == ConnectCalls(data, nodes[..i]) + (if Truthy(DatasetIn(data, nodes[i]), "controller") then [Connected(nodes[i])] else [])
    ensures MissingAll(regs, data, nodes[..i + 1])
         == MissingAll(regs, data, nodes[..i])
            + (if Truthy(DatasetIn(data, nodes[i]), "controller") then Missing(regs, ControllerNames(DatasetIn(data, nodes[i])), nodes[i]) else [])
  {
    assert nodes[..i + 1][..i] == nodes[..i];
  }

  lemma {:induction false} CarryingAgrees(d0: map<ElementId, Dataset>, d1: map<ElementId, Dataset>, els: seq<ElementId>)
    requires SameControllerAttrs(d0, d1)
    ensures Carrying(d0, els, "controller") == Carrying(d1, els, "controller")
    decreases |els|
  {
    if els != [] {
      var last := els[|els| - 1];
      CarryingAgrees(d0, d1, els[..|els| - 1]);
      assert ControllerAttr(DatasetIn(d0, last)) == ControllerAttr(DatasetIn(d1, last));
    }
  }

  /** What `connectAll` does over `nodes` depends on their `data-controller` attributes alone. */
  lemma {:induction false} ConnectCallsAgree(regs: map<string, ControllerClass>, d0: map<ElementId, Dataset>, d1: map<ElementId, Dataset>, nodes: seq<ElementId>)
    requires SameControllerAttrs(d0, d1)
    ensures ConnectCalls(d0, nodes) == ConnectCalls(d1, nodes)
    ensures MissingAll(regs, d0, nodes) == MissingAll(regs, d1, nodes)
    decreases |nodes|
  {
    if nodes != [] {
      var last := nodes[|nodes| - 1];
      ConnectCallsAgree(regs, d0, d1, nodes[..|nodes| - 1]);
      AgreeOnController(DatasetIn(d0, last), DatasetIn(d1, last));
    }
  }

  /** The nodes `connectAll(el)` visits and what it does there depend on the `data-controller` attributes alone. */
  lemma ConnectAllAgrees(regs: map<string, ControllerClass>, d0: map<ElementId, Dataset>, d1: map<ElementId, Dataset>,
                         descendants: seq<ElementId>, el: ElementId)
    requires SameControllerAttrs(d0, d1)
    ensures ConnectNodes(d0, descendants, el) == ConnectNodes(d1, descendants, el)
    ensures ConnectCalls(d0, ConnectNodes(d0, descendants, el)) == ConnectCalls(d1, ConnectNodes(d1, descendants, el))
    ensures MissingAll(regs, d0, ConnectNodes(d0, descendants, el)) == MissingAll(regs, d1, ConnectNodes(d1, descendants, el))
  {
    CarryingAgrees(d0, d1, descendants);
    ConnectCallsAgree(regs, d0, d1, ConnectNodes(d0, descendants, el));
  }

  // ---------------------------------------------------------------------
  // What `handleMutations` runs
  // ---------------------------------------------------------------------

  /** The calls `connectAll` makes for each element node of `added`, in order; other nodes are skipped. */
  function AddedCalls(data: map<ElementId, Dataset>, descendants: map<ElementId, seq<ElementId>>, added: seq<Node>): (calls: seq<Call>)
    ensures forall c :: c in calls ==> c.Connected? && Truthy(DatasetIn(data, c.element), "controller")
    decreases |added|
  {
    if added == [] then []
    else
      var init, last := added[..|added| - 1], added[|added| - 1];
      AddedCalls(data, descendants, init)
        + (if last.ElementNode? then ConnectCalls(data, ConnectNodes(data, DescendantsIn(descendants, last.id), last.id)) else [])
  }

  /** What `connectAll` logs for each element node of `added`, in order. */
  function AddedLog(regs: map<string, ControllerClass>, data: map<ElementId, Dataset>, descendants: map<ElementId, seq<ElementId>>,
                    added: seq<Node>): (log: seq<LogEntry>)
    decreases |added|
  {
    if added == [] then []
    else
      var init, last := added[..|added| - 1], added[|added| - 1];
      AddedLog(regs, data, descendants, init)
        + (if last.ElementNode? then MissingAll(regs, data, ConnectNodes(data, DescendantsIn(descendants, last.id), last.id)) else [])
  }

  /** The `disconnect` calls for the removed nodes: one per element node, in order; other nodes are skipped. */
  function RemovedCalls(removed: seq<Node>): (calls: seq<Call>)
    ensures forall c :: c in calls <==> c.Disconnected? && ElementNode(c.element) in removed
    decreases |removed|
  {
    if removed == [] then []
    else
      var init, last := removed[..|removed| - 1], removed[|removed| - 1];
      assert removed == init + [last];
      RemovedCalls(init) + (if last.ElementNode? then [Disconnected(last.id)] else [])
  }

  /** One mutation record: its added nodes are connected, then its removed nodes disconnected. */
  function RecordCalls(data: map<ElementId, Dataset>, descendants: map<ElementId, seq<ElementId>>, r: MutationRecord): seq<Call> {
    AddedCalls(data, descendants, r.addedNodes) + RemovedCalls(r.removedNodes)
  }

  /** The calls `handleMutations` makes for a batch of records, record by record. */
  function MutationCalls(data: map<ElementId, Dataset>, descendants: map<ElementId, seq<ElementId>>, records: seq<MutationRecord>): seq<Call>
    decreases |records|
  {
    if records == [] then []
    else MutationCalls(data, descendants, records[..|records| - 1]) + RecordCalls(data, descendants, records[|records| - 1])
  }

  /** What `handleMutations` logs for a batch: the entries of the `connectAll` calls of each record's added nodes. */
  function MutationLog(regs: map<string, ControllerClass>, data: map<ElementId, Dataset>, descendants: map<ElementId, seq<ElementId>>,
                       records: seq<MutationRecord>): seq<LogEntry>
    decreases |records|
  {
    if records == [] then []
    else MutationLog(regs, data, descendants, records[..|records| - 1]) + AddedLog(regs, data, descendants, records[|records| - 1].addedNodes)
  }

  /** Each removed element node is disconnected, and the batch connects only elements with a truthy `data-controller`. */
  lemma {:induction false} MutationCallsMembers(data: map<ElementId, Dataset>, descendants: map<ElementId, seq<ElementId>>, records: seq<MutationRecord>)
    ensures forall c :: c in MutationCalls(data, descendants, records) && c.Connected? ==> Truthy(DatasetIn(data, c.element), "controller")
    ensures forall c :: c in MutationCalls(data, descendants, records) && c.Disconnected? ==>
              exists r :: r in records && ElementNode(c.element) in r.removedNodes
    ensures forall r, n :: r in records && n in r.removedNodes && n.ElementNode? ==> Disconnected(n.id) in MutationCalls(data, descendants, records)
    decreases |records|
  {
    if records != [] {
      var init, last := records[..|records| - 1], records[|records| - 1];
      MutationCallsMembers(data, descendants, init);
      assert records == init + [last];
    }
  }

  /** What `connectAll` does for the added nodes depends on the `data-controller` attributes alone. */
  lemma {:induction false} AddedAgrees(regs: map<string, ControllerClass>, d0: map<ElementId, Dataset>, d1: map<ElementId, Dataset>,
                                       descendants: map<ElementId, seq<ElementId>>, added: seq<Node>)
    requires SameControllerAttrs(d0, d1)
    ensures AddedCalls(d0, descendants, added) == AddedCalls(d1, descendants, added)
    ensures AddedLog(regs, d0, descendants, added) == AddedLog(regs, d1, descendants, added)
    decreases |added|
  {
    if added != [] {
      var last := added[|added| - 1];
      AddedAgrees(regs, d0, d1, descendants, added[..|added| - 1]);
      if last.ElementNode? {
        ConnectAllAgrees(regs, d0, d1, DescendantsIn(descendants, last.id), last.id);
      }
    }
  }

  lemma AddedStep(regs: map<string, ControllerClass>, data: map<ElementId, Dataset>, descendants: map<ElementId, seq<ElementId>>,
                  added: seq<Node>, i: nat)
    requires i < |added|
    ensures AddedCalls(data, descendants, added[..i + 1]) == AddedCalls(data, descendants, added[..i])
              + (if added[i].ElementNode? then ConnectCalls(data, ConnectNodes(data, DescendantsIn(descendants, added[i].id), added[i].id)) else [])
    ensures AddedLog(regs, data, descendants, added[..i + 1]) == AddedLog(regs, data, descendants, added[..i])
              + (if added[i].ElementNode? then MissingAll(regs, data, ConnectNodes(data, DescendantsIn(descendants, added[i].id), added[i].id)) else [])
  {
    assert added[..i + 1][..i] == added[..i];
  }

  lemma RemovedStep(removed: seq<Node>, i: nat)
    requires i < |removed|
    ensures RemovedCalls(removed[..i + 1]) == RemovedCalls(removed[..i]) + (if removed[i].ElementNode? then [Disconnected(removed[i].id)] else [])
  {
    assert removed[..i + 1][..i] == removed[..i];
  }

  lemma MutationStep(regs: map<string, ControllerClass>, data: map<ElementId, Dataset>, descendants: map<ElementId, seq<ElementId>>,
                     records: seq<MutationRecord>, i: nat)
    requires i < |records|
    ensures MutationCalls(data, descendants, records[..i + 1]) == MutationCalls(data, descendants, records[..i]) + RecordCalls(data, descendants, records[i])
    ensures MutationLog(regs, data, descendants, records[..i + 1]) == MutationLog(regs, data, descendants, records[..i]) + AddedLog(regs, data, descendants, records[i].addedNodes)
  {
    assert records[..i + 1][..i] == records[..i];
  }

  /** The controllers of `cs`, as a set. */
  function Members(cs: seq<Controller>): set<Controller> {
    set c | c in cs
  }

  /** The controllers in the slots of `ids`. */
  ghost function Dropped(associations: map<string, seq<Controller>>, ids: seq<string>): set<Controller> {
    set id, c | id in ids && id in associations && c in associations[id] :: c
  }

  /** The removal keys the controllers of `cs` held, as recorded in `held`. */
  ghost function HeldBy(held: map<Controller, seq<ListenerKey>>, cs: set<Controller>): set<ListenerKey> {
    set c, k | c in cs && c in held && k in held[c] :: k
  }

  /** Each controller of `held` still holds its recorded removal functions, or holds none and their keys are in `gone`. */
  ghost predicate Settled(held: map<Controller, seq<ListenerKey>>, gone: set<ListenerKey>)
    reads held.Keys
  {
    forall c :: c in held ==> c.listeners == held[c] || (c.listeners == [] && forall k :: k in held[c] ==> k in gone)
  }

  lemma HeldByUnion(held: map<Controller, seq<ListenerKey>>, a: set<Controller>, b: set<Controller>)
    ensures HeldBy(held, a + b) == HeldBy(held, a) + HeldBy(held, b)
  {
  }

  /** One controller more: its recorded keys join the held ones. */
  lemma HeldByStep(held: map<Controller, seq<ListenerKey>>, slot: seq<Controller>, i: nat)
    requires i < |slot| && slot[i] in held
    ensures HeldBy(held, Members(slot[..i + 1])) == HeldBy(held, Members(slot[..i])) + (set k | k in held[slot[i]])
  {
    assert Members(slot[..i + 1]) == Members(slot[..i]) + {slot[i]} by {
      assert slot[..i + 1] == slot[..i] + [slot[i]];
    }
    HeldByUnion(held, Members(slot[..i]), {slot[i]});
  }

  /** One id more: the slot it still names, if any, joins the dropped controllers. */
  lemma DroppedStep(associations: map<string, seq<Controller>>, ids: seq<string>, id: string)
    ensures Dropped(associations, ids + [id])
         == Dropped(associations, ids) + Members(SlotOf(associations - (set x | x in ids), id))
  {
    var now := Members(SlotOf(associations - (set x | x in ids), id));
    forall c | c in Dropped(associations, ids + [id]) ensures c in Dropped(associations, ids) + now {
      var x :| x in ids + [x] && x in associations && c in associations[x] && (x in ids || x == id);
    }
  }

  /** Deleting the slots of `ids`, then that of `id`, is deleting the slots of `ids + [id]`. */
  lemma DropOne(base: map<string, seq<Controller>>, ids: seq<string>, id: string)
    ensures base - (set x | x in ids + [id]) == (base - (set x | x in ids)) - {id}
  {
    assert (set x | x in ids + [id]) == (set x | x in ids) + {id};
  }

  /** Before anything is dropped, nothing is gone and the lists are as they were. */
  lemma DroppedNothing(held: map<Controller, seq<ListenerKey>>, base: map<string, seq<Controller>>, entries: seq<Listener>)
    ensures base - (set x | x in []) == base && Dropped(base, []) == {} && HeldBy(held, {}) == {}
    ensures Without(entries, {}) == entries
  {
    WithoutNothing(entries, {});
    assert (set x: string | x in []) == {};
  }

  /** `controller.disconnect()` for one controller whose removal functions were recorded in `held`. */
  method DisconnectController(c: Controller, reg: ListenerRegistry, ghost held: map<Controller, seq<ListenerKey>>,
                              ghost entries0: seq<Listener>, ghost gone0: set<ListenerKey>) returns (ghost gone: set<ListenerKey>)
    requires reg.Valid() && c in held && Settled(held, gone0) && reg.entries == Without(entries0, gone0)
    modifies c, reg
    ensures reg.Valid() && reg.issued == old(reg.issued)
    ensures c.listeners == []
    ensures gone == gone0 + (set k | k in held[c])
    ensures Settled(held, gone) && reg.entries == Without(entries0, gone)
  {
    ghost var offs := set k | k in c.listeners;
    c.Disconnect(reg);
    gone := gone0 + (set k | k in held[c]);
    WithoutWithout(entries0, gone0, offs);
    assert gone0 + offs == gone;
  }

  /** `controllers.forEach((controller) => controller.disconnect())`. */
  method DisconnectAll(slot: seq<Controller>, reg: ListenerRegistry, ghost held: map<Controller, seq<ListenerKey>>,
                       ghost entries0: seq<Listener>, ghost gone0: set<ListenerKey>) returns (ghost gone: set<ListenerKey>)
    requires reg.Valid() && (forall c :: c in slot ==> c in held)
    requires Settled(held, gone0) && reg.entries == Without(entries0, gone0)
    modifies reg, set c | c in slot
    ensures reg.Valid() && reg.issued == old(reg.issued)
    ensures forall c :: c in slot ==> c.listeners == []
    ensures gone == gone0 + HeldBy(held, Members(slot))
    ensures Settled(held, gone) && reg.entries == Without(entries0, gone)
  {
    gone := gone0;
    var i := 0;
    assert Members(slot[..0]) == {};
    while i < |slot|
      invariant 0 <= i <= |slot|
      invariant reg.Valid() && reg.issued == old(reg.issued)
      invariant forall j :: 0 <= j < i ==> slot[j].listeners == []
      invariant gone == gone0 + HeldBy(held, Members(slot[..i]))
      invariant Settled(held, gone) && reg.entries == Without(entries0, gone)
    {
      gone := DisconnectController(slot[i], reg, held, entries0, gone);
      HeldByStep(held, slot, i);
      i := i + 1;
    }
    assert slot[..i] == slot;
  }

  // ---------------------------------------------------------------------
  // The application
  // ---------------------------------------------------------------------

  class Application {
    /** The root element: the one given to the constructor, or the document element. */
    const element: ElementId
    const doc: Document
    const reg: ListenerRegistry
    const targetMapping: TargetMapping
    var registrations: map<string, ControllerClass>
    var controllerId: nat
    /** `data-controller-id` to the controllers connected to the elements carrying it. */
    var associations: map<string, seq<Controller>>
    /** What `console.error` was given, oldest first. */
    var log: seq<LogEntry>
    /** The per-element operations run so far. */
    ghost var trace: seq<Call>
    /** Every controller this application has created. */
    ghost var Repr: set<Controller>

    ghost predicate Valid()
      reads this, reg
    {
      && reg.Valid()
      && (forall n :: n in registrations ==> WellFormedClass(registrations[n]))
      && (forall id, c :: id in associations && c in associations[id] ==> c in Repr)
    }

    /** `new Application(element)`: `element || document.documentElement`; observing is not modelled. */
    constructor (given: Option<ElementId>, documentElement: ElementId, doc: Document, reg: ListenerRegistry, targetMapping: TargetMapping)
      requires reg.Valid()
      ensures element == (if given.Some? then given.value else documentElement)
      ensures this.doc == doc && this.reg == reg && this.targetMapping == targetMapping
      ensures registrations == map[] && controllerId == 0 && associations == map[]
      ensures log == [] && trace == [] && Repr == {}
      ensures Valid()
    {
      element := if given.Some? then given.value else documentElement;
      this.doc := doc;
      this.reg := reg;
      this.targetMapping := targetMapping;
      registrations := map[];
      controllerId := 0;
      associations := map[];
      log := [];
      trace := [];
      Repr := {};
    }

    /** `register(name, controllerClass)`: a later registration under the same name replaces the earlier one. */
    method Register(name: string, cls: ControllerClass)
      requires Valid() && WellFormedClass(cls)
      modifies this
      ensures registrations == old(registrations)[name := cls]
      ensures controllerId == old(controllerId) && associations == old(associations) && log == old(log)
      ensures trace == old(trace) && Repr == old(Repr)
      ensures Valid()
    {
      registrations := registrations[name := cls];
    }

    /** `newControllerId()`: the next number, as a decimal string, distinct from every number issued before. */
    method NewControllerId() returns (id: string)
      modifies this
      ensures controllerId == old(controllerId) + 1
      ensures id == NatToString(controllerId)
      ensures forall n: nat :: n <= old(controllerId) ==> id != NatToString(n)
      ensures registrations == old(registrations) && associations == old(associations) && log == old(log)
      ensures trace == old(trace) && Repr == old(Repr)
    {
      controllerId := controllerId + 1;
      id := NatToString(controllerId);
      forall n: nat | n <= old(controllerId) ensures id != NatToString(n) {
        NatToStringInjective(controllerId, n);
      }
    }

    /** Creating, recording and connecting the controller for a name that was admitted. */
    method ConnectNew(id: string, el: ElementId, identifier: string, cls: ControllerClass) returns (c: Controller)
      requires Valid() && id in associations && WellFormedClass(cls)
      modifies this, reg
      ensures Valid()
      ensures fresh(c) && Repr == old(Repr) + {c}
      ensures c.identifier == identifier && c.element == el && c.classOf == cls
      ensures RanConnect(c, targetMapping) && c.firstId == old(reg.issued)
      ensures associations == old(associations)[id := old(associations[id]) + [c]]
      ensures reg.entries == old(reg.entries) + c.installed
      ensures reg.issued == old(reg.issued) + |c.installed|
      ensures registrations == old(registrations) && controllerId == old(controllerId)
      ensures trace == old(trace) && log == old(log)
    {
      c := new Controller(identifier, el, cls);
      associations := associations[id := associations[id] + [c]];
      Repr := Repr + {c};
      c.Connect(targetMapping, reg);
    }

    /** The body of the `forEach` in `connect` for one listed name; `added` is what it appends to the slot. */
    method ConnectIdentifier(id: string, el: ElementId, identifier: string) returns (ghost added: seq<Controller>)
      requires Valid() && id in associations
      modifies this, reg
      ensures Valid()
      ensures registrations == old(registrations) && controllerId == old(controllerId) && trace == old(trace)
      ensures log == old(log) + (if identifier in registrations then [] else [ControllerNotFound(identifier, el)])
      ensures associations == old(associations)[id := old(associations[id]) + added]
      ensures AdmissionsOf(added) == Admit(registrations, AdmissionsOf(old(associations[id])), identifier)
      ensures AttachedTo(added, el) && AllRanConnect(added, targetMapping)
      ensures reg.entries == old(reg.entries) + InstalledBy(added)
      ensures reg.issued == old(reg.issued) + |InstalledBy(added)|
      ensures old(Repr) <= Repr && forall c :: c in Repr && c !in old(Repr) ==> fresh(c)
    {
      added := [];
      var slot := associations[id];
      if identifier !in registrations {
        log := log + [ControllerNotFound(identifier, el)];
        assert slot + added == slot;
        return;
      }
      var cls := registrations[identifier];
      if AnyInstance(AdmissionsOf(slot), cls) {
        assert slot + added == slot;
        return;
      }
      var c := ConnectNew(id, el, identifier, cls);
      added := [c];
      assert added[..0] == [];
    }

    /**
      One turn of the `forEach` of `connect`: the names before `names[i]`
      have added `added` to the slot that held `slot0`; this turn handles
      `names[i]` and returns the new `added`.
    */
    method ConnectNext(id: string, el: ElementId, names: seq<string>, i: nat,
                       ghost slot0: seq<Controller>, ghost first: nat, ghost log0: seq<LogEntry>, ghost entries0: seq<Listener>,
                       ghost base: map<string, seq<Controller>>, ghost added: seq<Controller>)
      returns (ghost added': seq<Controller>)
      requires Valid() && i < |names|
      requires associations == base[id := slot0 + added]
      requires AdmissionsOf(added) == Admitted(registrations, AdmissionsOf(slot0), names[..i])
      requires AttachedTo(added, el) && AllRanConnect(added, targetMapping)
      requires log == log0 + Missing(registrations, names[..i], el)
      requires reg.entries == entries0 + InstalledBy(added)
      requires reg.issued == first + |InstalledBy(added)|
      modifies this, reg
      ensures Valid()
      ensures registrations == old(registrations) && controllerId == old(controllerId) && trace == old(trace)
      ensures associations == base[id := slot0 + added']
      ensures AdmissionsOf(added') == Admitted(registrations, AdmissionsOf(slot0), names[..i + 1])
      ensures AttachedTo(added', el) && AllRanConnect(added', targetMapping)
      ensures log == log0 + Missing(registrations, names[..i + 1], el)
      ensures reg.entries == entries0 + InstalledBy(added')
      ensures reg.issued == first + |InstalledBy(added')|
      ensures old(Repr) <= Repr && forall c :: c in Repr && c !in old(Repr) ==> fresh(c)
    {
      ghost var regs := registrations;
      ghost var log1 := log;
      AdmissionsOfConcat(slot0, added);
      assert AdmissionsOf(associations[id]) == AdmissionsOf(slot0) + AdmissionsOf(added);
      ghost var installed := InstalledBy(added);
      ghost var more := ConnectIdentifier(id, el, names[i]);
      assert InstalledBy(added) == installed && AllRanConnect(added, targetMapping);
      LogNext(regs, names, i, el, log0, log1, log);
      SlotNext(regs, slot0, names, i, el, added, more);
      AllRanConnectConcat(added, more, targetMapping);
      InstalledByConcat(added, more);
      AppendAssoc(entries0, installed, InstalledBy(more));
      AppendAssoc(slot0, added, more);
      UpdateTwice(base, id, slot0 + added, slot0 + added + more);
      added' := added + more;
    }

    /**
      The `forEach` of `connect` over the listed names, for the element `el`
      whose id is `id`: one new controller per name that is registered and
      whose class has no instance in the slot yet, each connected in turn.
      `added` is what it appends to the slot.
    */
    method ConnectEach(id: string, el: ElementId, names: seq<string>) returns (ghost added: seq<Controller>)
      requires Valid() && id in associations
      modifies this, reg
      ensures Valid()
      ensures registrations == old(registrations) && controllerId == old(controllerId) && trace == old(trace)
      ensures associations == old(associations)[id := old(associations[id]) + added]
      ensures AdmissionsOf(added) == Admitted(registrations, AdmissionsOf(old(associations[id])), names)
      ensures AttachedTo(added, el) && AllRanConnect(added, targetMapping)
      ensures reg.entries == old(reg.entries) + InstalledBy(added)
      ensures reg.issued == old(reg.issued) + |InstalledBy(added)|
      ensures log == old(log) + Missing(registrations, names, el)
      ensures old(Repr) <= Repr && forall c :: c in Repr && c !in old(Repr) ==> fresh(c)
    {
      ghost var slot0 := associations[id];
      ghost var first := reg.issued;
      added := [];
      assert slot0 + added == slot0;
      var i := 0;
      while i < |names|
        invariant 0 <= i <= |names|
        invariant Valid() && registrations == old(registrations)
        invariant trace == old(trace) && controllerId == old(controllerId)
        invariant associations == old(associations)[id := slot0 + added]
        invariant AdmissionsOf(added) == Admitted(registrations, AdmissionsOf(slot0), names[..i])
        invariant AttachedTo(added, el) && AllRanConnect(added, targetMapping)
        invariant log == old(log) + Missing(registrations, names[..i], el)
        invariant reg.entries == old(reg.entries) + InstalledBy(added)
        invariant reg.issued == first + |InstalledBy(added)|
        invariant old(Repr) <= Repr && forall c :: c in Repr && c !in old(Repr) ==> fresh(c)
      {
        added := ConnectNext(id, el, names, i, slot0, first, old(log), old(reg.entries), old(associations), added);
        i := i + 1;
      }
      assert names[..i] == names;
    }

    /**
      The first half of `connect(element)`: the element's id is its persisted
      one when truthy, or else the next number; the id gets a slot if it has
      none, and is written back to the element.
    */
    method AssignId(el: ElementId) returns (id: string)
      requires Valid()
      modifies this, doc
      ensures Valid()
      ensures id == AssignedId(old(doc.DatasetOf(el)), old(controllerId))
      ensures controllerId == (if Truthy(old(doc.DatasetOf(el)), "controller-id") then old(controllerId) else old(controllerId) + 1)
      ensures doc.data == old(doc.data)[el := old(doc.DatasetOf(el))["controller-id" := id]]
      ensures doc.descendants == old(doc.descendants)
      ensures associations == old(associations)[id := SlotOf(old(associations), id)]
      ensures registrations == old(registrations) && log == old(log) && trace == old(trace) && Repr == old(Repr)
    {
      var ds := doc.DatasetOf(el);
      if Truthy(ds, "controller-id") {
        id := ds["controller-id"];
      } else {
        id := NewControllerId();
      }
      associations := associations[id := SlotOf(associations, id)];
      doc.SetData(el, "controller-id", id);
    }

    /**
      `connect(element)`: give the element an id and a slot, then create and
      connect one controller per listed name that is registered and has no
      instance of its class in the slot yet.
    */
    method Connect(el: ElementId) returns (id: string, names: seq<string>, ghost added: seq<Controller>)
      requires Valid()
      modifies this, doc, reg
      ensures Valid()
      ensures id == AssignedId(old(doc.DatasetOf(el)), old(controllerId))
      ensures names == ControllerNames(old(doc.DatasetOf(el)))
      ensures controllerId == (if Truthy(old(doc.DatasetOf(el)), "controller-id") then old(controllerId) else old(controllerId) + 1)
      ensures doc.data == old(doc.data)[el := old(doc.DatasetOf(el))["controller-id" := id]]
      ensures doc.descendants == old(doc.descendants)
      ensures associations == old(associations)[id := SlotOf(old(associations), id) + added]
      ensures AdmissionsOf(added) == Admitted(registrations, AdmissionsOf(SlotOf(old(associations), id)), names)
      ensures AttachedTo(added, el) && AllRanConnect(added, targetMapping)
      ensures reg.entries == old(reg.entries) + InstalledBy(added)
      ensures reg.issued == old(reg.issued) + |InstalledBy(added)|
      ensures log == old(log) + Missing(registrations, names, el)
      ensures registrations == old(registrations) && trace == old(trace) + [Connected(el)]
      ensures old(Repr) <= Repr && forall c :: c in Repr && c !in old(Repr) ==> fresh(c)
    {
      names := ControllerNames(doc.DatasetOf(el));
      id := AssignId(el);
      ghost var slot0 := associations[id];
      added := ConnectEach(id, el, names);
      UpdateTwice(old(associations), id, slot0, slot0 + added);
      trace := trace + [Connected(el)];
    }

    /**
      What `disconnect` has done once it has visited the nodes whose ids are
      `ids`: their slots are deleted from `base`, the controllers of those
      slots hold nothing any more and the keys they held, `gone`, are off the
      listener lists, and every other controller holds what `held` recorded.
    */
    ghost predicate DroppedSoFar(held: map<Controller, seq<ListenerKey>>, base: map<string, seq<Controller>>,
                                 ids: seq<string>, entries0: seq<Listener>, gone: set<ListenerKey>)
      reads this, reg, held.Keys
    {
      && associations == base - (set x | x in ids)
      && gone == HeldBy(held, Dropped(base, ids))
      && Settled(held, gone) && reg.entries == Without(entries0, gone)
      && forall c :: c in held ==> c.listeners == (if c in Dropped(base, ids) then [] else held[c])
    }

    /**
      The body of the `forEach` in `disconnect` for one visited node: a
      truthy `data-controller-id` has the controllers of its slot
      disconnected and the slot deleted.
    */
    method DisconnectNode(node: ElementId, ghost held: map<Controller, seq<ListenerKey>>, ghost base: map<string, seq<Controller>>,
                          ghost ids: seq<string>, ghost entries0: seq<Listener>, ghost gone0: set<ListenerKey>)
      returns (ghost ids': seq<string>, ghost gone: set<ListenerKey>)
      requires Valid() && held.Keys == Repr
      requires DroppedSoFar(held, base, ids, entries0, gone0)
      modifies this, reg, Repr
      ensures Valid() && Repr == old(Repr)
      ensures ids' == ids + (if Truthy(doc.DatasetOf(node), "controller-id") then [doc.DatasetOf(node)["controller-id"]] else [])
      ensures DroppedSoFar(held, base, ids', entries0, gone)
      ensures reg.issued == old(reg.issued)
      ensures registrations == old(registrations) && controllerId == old(controllerId) && log == old(log) && trace == old(trace)
    {
      ids', gone := ids, gone0;
      var ds := doc.DatasetOf(node);
      if Truthy(ds, "controller-id") {
        var id := ds["controller-id"];
        var slot := SlotOf(associations, id);
        DroppedStep(base, ids, id);
        gone := DisconnectAll(slot, reg, held, entries0, gone0);
        HeldByUnion(held, Dropped(base, ids), Members(slot));
        DropOne(base, ids, id);
        associations := associations - {id};
        ids' := ids + [id];
      }
    }

    /**
      The `forEach` of `disconnect` over the visited nodes; `held` records
      what every controller held before. Returns the truthy ids it met and
      the removal keys it called.
    */
    method DisconnectEach(nodes: seq<ElementId>, ghost held: map<Controller, seq<ListenerKey>>)
      returns (ghost ids: seq<string>, ghost gone: set<ListenerKey>)
      requires Valid() && held.Keys == Repr
      requires DroppedSoFar(held, associations, [], reg.entries, {})
      modifies this, reg, Repr
      ensures Valid() && Repr == old(Repr)
      ensures ids == IdsOf(doc.data, nodes)
      ensures DroppedSoFar(held, old(associations), ids, old(reg.entries), gone)
      ensures reg.issued == old(reg.issued)
      ensures registrations == old(registrations) && controllerId == old(controllerId) && log == old(log) && trace == old(trace)
    {
      ids, gone := [], {};
      var i := 0;
      while i < |nodes|
        invariant 0 <= i <= |nodes|
        invariant Valid() && Repr == old(Repr)
        invariant ids == IdsOf(doc.data, nodes[..i])
        invariant DroppedSoFar(held, old(associations), ids, old(reg.entries), gone)
        invariant reg.issued == old(reg.issued)
        invariant registrations == old(registrations) && controllerId == old(controllerId) && log == old(log) && trace == old(trace)
      {
        IdsOfStep(doc.data, nodes, i);
        ids, gone := DisconnectNode(nodes[i], held, old(associations), ids, old(reg.entries), gone);
        i := i + 1;
      }
      assert nodes[..i] == nodes;
    }

    /**
      `disconnect(element)`: visit `element` and its descendants carrying
      `data-controller-id`; for each truthy id, disconnect the controllers of
      its slot and delete the slot. `held` is what every controller held
      before; `ids` are the ids visited and `gone` the removal keys called.
    */
    method Disconnect(el: ElementId)
      returns (ghost held: map<Controller, seq<ListenerKey>>, ghost ids: seq<string>, ghost gone: set<ListenerKey>)
      requires Valid()
      modifies this, reg, Repr
      ensures Valid() && Repr == old(Repr)
      ensures held.Keys == old(Repr) && forall c :: c in held ==> held[c] == old(c.listeners)
      ensures ids == IdsOf(doc.data, DisconnectNodes(doc.data, doc.DescendantsOf(el), el))
      ensures DroppedSoFar(held, old(associations), ids, old(reg.entries), gone)
      ensures reg.issued == old(reg.issued)
      ensures registrations == old(registrations) && controllerId == old(controllerId) && log == old(log)
      ensures trace == old(trace) + [Disconnected(el)]
    {
      held := map c | c in Repr :: c.listeners;
      var nodes := DisconnectNodes(doc.data, doc.DescendantsOf(el), el);
      DroppedNothing(held, associations, reg.entries);
      ids, gone := DisconnectEach(nodes, held);
      trace := trace + [Disconnected(el)];
    }

    /**
      The body of the `forEach` in `connectAll`: `node` is connected if its
      `data-controller` is truthy. `d0` is the attribute table as it was when
      `connectAll` began; the `data-controller` attributes are still as there.
    */
    method ConnectNode(node: ElementId, ghost d0: map<ElementId, Dataset>)
      requires Valid() && SameControllerAttrs(d0, doc.data)
      modifies this, doc, reg
      ensures Valid()
      ensures trace == old(trace) + (if Truthy(DatasetIn(d0, node), "controller") then [Connected(node)] else [])
      ensures log == old(log) + (if Truthy(DatasetIn(d0, node), "controller") then Missing(registrations, ControllerNames(DatasetIn(d0, node)), node) else [])
      ensures SameControllerAttrs(d0, doc.data) && doc.descendants == old(doc.descendants)
      ensures SlotsKept(old(doc.data), old(associations), doc.data, associations)
      ensures Truthy(DatasetIn(d0, node), "controller") ==> Covered(registrations, doc.data, associations, node)
      ensures registrations == old(registrations)
      ensures old(Repr) <= Repr && forall c :: c in Repr && c !in old(Repr) ==> fresh(c)
    {
      ghost var d, a := doc.data, associations;
      AgreeOnController(DatasetIn(d0, node), DatasetIn(d, node));
      if Truthy(doc.DatasetOf(node), "controller") {
        assert forall n :: n in registrations ==> WellFormedClass(registrations[n]);
        var id, names, added := Connect(node);
        AssignedIdCases(DatasetIn(d, node), old(controllerId));
        ConnectKeepsSlots(d, a, node, id, added);
        ConnectCovers(registrations, d, a, node, id, added);
        SetIdKeepsControllerAttrs(d, node, id);
        SameControllerAttrsTrans(d0, d, doc.data);
      }
    }

    /**
      `connectAll(element)`: `element`, then its descendants carrying
      `data-controller` in document order, each connected if its
      `data-controller` is truthy. `nodes` is the list it visits.
    */
    method ConnectAll(el: ElementId) returns (nodes: seq<ElementId>)
      requires Valid()
      modifies this, doc, reg
      ensures Valid()
      ensures nodes == ConnectNodes(old(doc.data), old(doc.DescendantsOf(el)), el)
      ensures trace == old(trace) + ConnectCalls(old(doc.data), nodes)
      ensures log == old(log) + MissingAll(registrations, old(doc.data), nodes)
      ensures SameControllerAttrs(old(doc.data), doc.data) && doc.descendants == old(doc.descendants)
      ensures SlotsKept(old(doc.data), old(associations), doc.data, associations)
      ensures forall e :: e in nodes && Truthy(old(doc.DatasetOf(e)), "controller") ==> Covered(registrations, doc.data, associations, e)
      ensures registrations == old(registrations)
      ensures old(Repr) <= Repr && forall c :: c in Repr && c !in old(Repr) ==> fresh(c)
    {
      nodes := ConnectNodes(doc.data, doc.DescendantsOf(el), el);
      ghost var d0, a0, regs := doc.data, associations, registrations;
      SameControllerAttrsRefl(d0);
      SlotsKeptRefl(d0, a0);
      assert CoveredAll(regs, d0, nodes[..0], doc.data, associations);
      var i := 0;
      while i < |nodes|
        invariant 0 <= i <= |nodes|
        invariant Valid() && registrations == regs
        invariant trace == old(trace) + ConnectCalls(d0, nodes[..i])
        invariant log == old(log) + MissingAll(regs, d0, nodes[..i])
        invariant SameControllerAttrs(d0, doc.data) && doc.descendants == old(doc.descendants)
        invariant SlotsKept(d0, a0, doc.data, associations)
        invariant CoveredAll(regs, d0, nodes[..i], doc.data, associations)
        invariant old(Repr) <= Repr && forall c :: c in Repr && c !in old(Repr) ==> fresh(c)
      {
        ghost var d, a := doc.data, associations;
        ghost var ds := DatasetIn(d0, nodes[i]);
        ConnectCallsStep(regs, d0, nodes, i);
        AppendAssoc(old(trace), ConnectCalls(d0, nodes[..i]), if Truthy(ds, "controller") then [Connected(nodes[i])] else []);
        AppendAssoc(old(log), MissingAll(regs, d0, nodes[..i]),
                    if Truthy(ds, "controller") then Missing(regs, ControllerNames(ds), nodes[i]) else []);
        ConnectNode(nodes[i], d0);
        SlotsKeptTrans(d0, a0, d, a, doc.data, associations);
        CoveredStep(regs, d0, nodes, i, d, a, doc.data, associations);
        i := i + 1;
      }
      assert nodes[..i] == nodes;
    }

    /** `start()`: connect the root element and everything under it; observing mutations afterwards is not modelled. */
    method Start() returns (nodes: seq<ElementId>)
      requires Valid()
      modifies this, doc, reg
      ensures Valid()
      ensures nodes == ConnectNodes(old(doc.data), old(doc.DescendantsOf(element)), element)
      ensures trace == old(trace) + ConnectCalls(old(doc.data), nodes)
      ensures log == old(log) + MissingAll(registrations, old(doc.data), nodes)
      ensures forall e :: e in nodes && Truthy(old(doc.DatasetOf(e)), "controller") ==> Covered(registrations, doc.data, associations, e)
      ensures registrations == old(registrations)
    {
      nodes := ConnectAll(element);
    }

    /**
      The body of the `addedNodes.forEach` of `handleMutations`: `connectAll`
      for an element node, nothing for any other node. `d0` is the attribute
      table as it was when the batch began.
    */
    method ConnectAddedNode(n: Node, ghost d0: map<ElementId, Dataset>)
      requires Valid() && SameControllerAttrs(d0, doc.data)
      modifies this, doc, reg
      ensures Valid()
      ensures trace == old(trace) + (if n.ElementNode? then ConnectCalls(d0, ConnectNodes(d0, DescendantsIn(doc.descendants, n.id), n.id)) else [])
      ensures log == old(log) + (if n.ElementNode? then MissingAll(registrations, d0, ConnectNodes(d0, DescendantsIn(doc.descendants, n.id), n.id)) else [])
      ensures SameControllerAttrs(d0, doc.data) && doc.descendants == old(doc.descendants)
      ensures registrations == old(registrations)
      ensures old(Repr) <= Repr && forall c :: c in Repr && c !in old(Repr) ==> fresh(c)
    {
      if n.ElementNode? {
        ghost var d := doc.data;
        ConnectAllAgrees(registrations, d0, d, doc.DescendantsOf(n.id), n.id);
        var nodes := ConnectAll(n.id);
        SameControllerAttrsTrans(d0, d, doc.data);
      }
    }

    /** The `addedNodes.forEach` of `handleMutations`: `connectAll` for each element node. */
    method ConnectAdded(added: seq<Node>)
      requires Valid()
      modifies this, doc, reg
      ensures Valid()
      ensures trace == old(trace) + AddedCalls(old(doc.data), old(doc.descendants), added)
      ensures log == old(log) + AddedLog(registrations, old(doc.data), old(doc.descendants), added)
      ensures SameControllerAttrs(old(doc.data), doc.data) && doc.descendants == old(doc.descendants)
      ensures registrations == old(registrations)
      ensures old(Repr) <= Repr && forall c :: c in Repr && c !in old(Repr) ==> fresh(c)
    {
      ghost var d0, desc, regs := doc.data, doc.descendants, registrations;
      SameControllerAttrsRefl(d0);
      var i := 0;
      while i < |added|
        invariant 0 <= i <= |added|
        invariant Valid() && registrations == regs
        invariant trace == old(trace) + AddedCalls(d0, desc, added[..i])
        invariant log == old(log) + AddedLog(regs, d0, desc, added[..i])
        invariant SameControllerAttrs(d0, doc.data) && doc.descendants == desc
        invariant old(Repr) <= Repr && forall c :: c in Repr && c !in old(Repr) ==> fresh(c)
      {
        AddedStep(regs, d0, desc, added, i);
        var n := added[i];
        ghost var calls := if n.ElementNode? then ConnectCalls(d0, ConnectNodes(d0, DescendantsIn(desc, n.id), n.id)) else [];
        ghost var entries := if n.ElementNode? then MissingAll(regs, d0, ConnectNodes(d0, DescendantsIn(desc, n.id), n.id)) else [];
        AppendAssoc(old(trace), AddedCalls(d0, desc, added[..i]), calls);
        AppendAssoc(old(log), AddedLog(regs, d0, desc, added[..i]), entries);
        ConnectAddedNode(n, d0);
        i := i + 1;
      }
      assert added[..i] == added;
    }

    /** The body of the `removedNodes.forEach` of `handleMutations`: `disconnect` for an element node, nothing for any other node. */
    method DisconnectRemovedNode(n: Node)
      requires Valid()
      modifies this, reg, Repr
      ensures Valid() && Repr == old(Repr)
      ensures trace == old(trace) + (if n.ElementNode? then [Disconnected(n.id)] else [])
      ensures registrations == old(registrations) && controllerId == old(controllerId) && log == old(log)
    {
      if n.ElementNode? {
        var held, ids, gone := Disconnect(n.id);
      }
    }

    /** The `removedNodes.forEach` of `handleMutations`: `disconnect` for each element node. */
    method DisconnectRemoved(removed: seq<Node>)
      requires Valid()
      modifies this, reg, Repr
      ensures Valid() && Repr == old(Repr)
      ensures trace == old(trace) + RemovedCalls(removed)
      ensures registrations == old(registrations) && controllerId == old(controllerId) && log == old(log)
    {
      var i := 0;
      while i < |removed|
        invariant 0 <= i <= |removed|
        invariant Valid() && Repr == old(Repr)
        invariant trace == old(trace) + RemovedCalls(removed[..i])
        invariant registrations == old(registrations) && controllerId == old(controllerId) && log == old(log)
      {
        RemovedStep(removed, i);
        AppendAssoc(old(trace), RemovedCalls(removed[..i]), if removed[i].ElementNode? then [Disconnected(removed[i].id)] else []);
        DisconnectRemovedNode(removed[i]);
        i := i + 1;
      }
      assert removed[..i] == removed;
    }

    /** One record of `handleMutations`: its added nodes are connected, then its removed nodes disconnected. */
    method HandleRecord(r: MutationRecord)
      requires Valid()
      modifies this, doc, reg, Repr
      ensures Valid()
      ensures trace == old(trace) + RecordCalls(old(doc.data), old(doc.descendants), r)
      ensures log == old(log) + AddedLog(registrations, old(doc.data), old(doc.descendants), r.addedNodes)
      ensures SameControllerAttrs(old(doc.data), doc.data) && doc.descendants == old(doc.descendants)
      ensures registrations == old(registrations)
      ensures old(Repr) <= Repr && forall c :: c in Repr && c !in old(Repr) ==> fresh(c)
    {
      ConnectAdded(r.addedNodes);
      DisconnectRemoved(r.removedNodes);
    }

    /**
      `handleMutations(records)`: the records in order, each connecting its
      added element nodes and then disconnecting its removed ones.
    */
    method HandleMutations(records: seq<MutationRecord>)
      requires Valid()
      modifies this, doc, reg, Repr
      ensures Valid()
      ensures trace == old(trace) + MutationCalls(old(doc.data), old(doc.descendants), records)
      ensures log == old(log) + MutationLog(registrations, old(doc.data), old(doc.descendants), records)
      ensures SameControllerAttrs(old(doc.data), doc.data) && doc.descendants == old(doc.descendants)
      ensures registrations == old(registrations)
      ensures old(Repr) <= Repr && forall c :: c in Repr && c !in old(Repr) ==> fresh(c)
    {
      ghost var d0, desc, regs := doc.data, doc.descendants, registrations;
      SameControllerAttrsRefl(d0);
      var i := 0;
      while i < |records|
        invariant 0 <= i <= |records|
        invariant Valid() && registrations == regs
        invariant trace == old(trace) + MutationCalls(d0, desc, records[..i])
        invariant log == old(log) + MutationLog(regs, d0, desc, records[..i])
        invariant SameControllerAttrs(d0, doc.data) && doc.descendants == desc
        invariant old(Repr) <= Repr && forall c :: c in Repr && c !in old(Repr) ==> fresh(c)
      {
        ghost var d := doc.data;
        MutationStep(regs, d0, desc, records, i);
        AddedAgrees(regs, d0, d, desc, records[i].addedNodes);
        AppendAssoc(old(trace), MutationCalls(d0, desc, records[..i]), RecordCalls(d0, desc, records[i]));
        AppendAssoc(old(log), MutationLog(regs, d0, desc, records[..i]), AddedLog(regs, d0, desc, records[i].addedNodes));
        HandleRecord(records[i]);
        SameControllerAttrsTrans(d0, d, doc.data);
        i := i + 1;
      }
      assert records[..i] == records;
    }
  }
}
