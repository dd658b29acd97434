/**
  The event-expression grammar `target->event.combo:modifier:modifier` and
  its parser, `parseEventExpression` in src/index.ts. The parser is a chain
  of JavaScript `split` calls taken by index, so it is composed here from
  `JsStrings.Split`.
*/
module EventExpressions {
  import opened JsStrings
  import opened Optional

  /** The parse result: `keys` from the `+`-joined combo, `key` the one non-modifier key, `modifiers` verbatim. */
  datatype EventExpression = EventExpression(
    target: string,
    event: string,
    keys: seq<string>,
    key: string,
    modifiers: seq<string>)

  /** `keyboardModifiers`: the key names that are modifier flags rather than keys. */
  const KeyboardModifiers: seq<string> := ["meta", "ctrl", "alt", "shift"]

  /** `keys.find((k) => !keyboardModifiers.includes(k)) ?? ""`. */
  function FirstKey(keys: seq<string>): (k: string)
    ensures k != "" ==> exists i :: 0 <= i < |keys| && keys[i] == k && k !in KeyboardModifiers
                                    && forall j :: 0 <= j < i ==> keys[j] in KeyboardModifiers
    ensures (forall j :: 0 <= j < |keys| ==> keys[j] in KeyboardModifiers) ==> k == ""
  {
    if keys == [] then ""
    else if keys[0] !in KeyboardModifiers then keys[0]
    else
      var k := FirstKey(keys[1..]);
      assert k != "" ==> exists i :: 0 <= i < |keys[1..]| && keys[1..][i] == k && k !in KeyboardModifiers
                                    && forall j :: 0 <= j < i ==> keys[1..][j] in KeyboardModifiers;
      assert k != "" ==> exists i :: 1 <= i < |keys| && keys[i] == k && k !in KeyboardModifiers
                                    && forall j :: 0 <= j < i ==> keys[j] in KeyboardModifiers;
      k
  }

  /** What `on` demands of each expression: it must contain `->`, or `rest.split` throws. */
  predicate HasArrow(expression: string) {
    Contains(expression, "->")
  }

  /** One space-separated part of an expression passed to `on`. */
  type Part = s: string | HasArrow(s) witness "->"

  // The stages of `parseEventExpression`, one `split` each.

  /** `const [target, rest] = expression.split("->")`: the text before the first arrow. */
  function TargetOf(expression: string): string
    requires HasArrow(expression)
  {
    Split(expression, "->")[0]
  }

  /** `rest`: the text after the first arrow, up to any further arrow. */
  function RestOf(expression: string): string
    requires HasArrow(expression)
  {
    Split(expression, "->")[1]
  }

  /** `const [eventExpr, ...modifiers] = rest.split(":")`. */
  function EventExprOf(expression: string): string
    requires HasArrow(expression)
  {
    Split(RestOf(expression), ":")[0]
  }

  function ModifiersOf(expression: string): seq<string>
    requires HasArrow(expression)
  {
    Split(RestOf(expression), ":")[1..]
  }

  /** `const [event, comboExpr] = eventExpr.split(".")`. */
  function EventOf(expression: string): string
    requires HasArrow(expression)
  {
    Split(EventExprOf(expression), ".")[0]
  }

  /** `comboExpr ?? ""`: only the second `.`-separated piece. */
  function ComboOf(expression: string): string
    requires HasArrow(expression)
  {
    var halves := Split(EventExprOf(expression), ".");
    if |halves| > 1 then halves[1] else ""
  }

  /** `(comboExpr ?? "").split("+").filter((key) => key.trim())`. */
  function KeysOf(expression: string): seq<string>
    requires HasArrow(expression)
  {
    NonBlank(Split(ComboOf(expression), "+"))
  }

  /** `parseEventExpression`. */
  function ParseEventExpression(expression: string): (r: EventExpression)
    requires HasArrow(expression)
    ensures forall i :: 0 <= i < |r.keys| ==> !Blank(r.keys[i])
    ensures r.key == "" || (r.key in r.keys && r.key !in KeyboardModifiers)
  {
    var keys := KeysOf(expression);
    EventExpression(TargetOf(expression), EventOf(expression), keys, FirstKey(keys), ModifiersOf(expression))
  }

  /** `target` is the text before the first `->`. */
  lemma {:induction false} ParseTarget(expression: string)
    requires HasArrow(expression)
    ensures var t := ParseEventExpression(expression).target;
            IndexOf(expression, "->") == Some(|t|) && t == expression[..|t|]
  {
    var k := IndexOf(expression, "->").value;
    assert Split(expression, "->") == [expression[..k]] + Split(expression[k + 2..], "->");
  }

  /**
    After the target comes `->` and then `event`, which holds no `->`, `:` or
    `.` and runs up to the first of them after the arrow, or to the end.
  */
  lemma ParseEvent(expression: string)
    requires HasArrow(expression)
    ensures var r := ParseEventExpression(expression);
            && r.target + "->" + r.event <= expression
            && !Contains(r.event, "->") && !Contains(r.event, ":") && !Contains(r.event, ".")
    ensures var r := ParseEventExpression(expression);
            var p := |r.target| + 2 + |r.event|;
            p <= |expression| && (p == |expression| || expression[p] == '.' || expression[p] == ':' || OccursAt(expression, "->", p))
  {
    ParsedFields(expression);
    EventFollowsArrow(expression);
    EventTokens(expression);
  }

  lemma ParsedFields(expression: string)
    requires HasArrow(expression)
    ensures ParseEventExpression(expression).target == TargetOf(expression)
    ensures ParseEventExpression(expression).event == EventOf(expression)
  {
  }

  /** The first `->`-split: the text before the first arrow, then the pieces of what follows it. */
  lemma ArrowCut(expression: string, k: nat)
    requires HasArrow(expression) && IndexOf(expression, "->") == Some(k)
    ensures k + 2 <= |expression|
    ensures TargetOf(expression) == expression[..k]
    ensures RestOf(expression) == Split(expression[k + 2..], "->")[0]
  {
    assert Split(expression, "->") == [expression[..k]] + Split(expression[k + 2..], "->");
  }

  lemma {:induction false} EventFollowsArrow(expression: string)
    requires HasArrow(expression)
    ensures TargetOf(expression) + "->" + EventOf(expression) <= expression
  {
    var k := IndexOf(expression, "->").value;
    ArrowCut(expression, k);
    var after := expression[k + 2..];
    var target := TargetOf(expression);
    var event := EventOf(expression);
    assert event <= after by {
      SplitHeadIsPrefix(after, "->");
      SplitHeadIsPrefix(RestOf(expression), ":");
      SplitHeadIsPrefix(EventExprOf(expression), ".");
    }
    assert expression == target + "->" + after;
    assert after == event + after[|event|..];
  }

  /**
    The event name holds no `->`, `:` or `.`, and it is the longest such run
    after the arrow: it ends at the end of the expression or just before a
    `.`, a `:` or another `->`.
  */
  lemma {:induction false} EventTokens(expression: string)
    requires HasArrow(expression)
    ensures var event := EventOf(expression);
            !Contains(event, "->") && !Contains(event, ":") && !Contains(event, ".")
    ensures var p := |TargetOf(expression)| + 2 + |EventOf(expression)|;
            p <= |expression| && (p == |expression| || expression[p] == '.' || expression[p] == ':' || OccursAt(expression, "->", p))
  {
    EventStops(expression);
    var k := IndexOf(expression, "->").value;
    ArrowCut(expression, k);
    var rest := RestOf(expression);
    var eventExpr := EventExprOf(expression);
    var event := EventOf(expression);
    SplitPieces(expression[k + 2..], "->");
    SplitPieces(rest, ":");
    SplitHeadIsPrefix(rest, ":");
    SplitHeadIsPrefix(eventExpr, ".");
    PrefixNoOccurrence(rest, "->", |eventExpr|);
    assert rest[..|eventExpr|] == eventExpr;
    PrefixNoOccurrence(eventExpr, "->", |event|);
    PrefixNoOccurrence(eventExpr, ":", |event|);
    assert eventExpr[..|event|] == event;
    SplitPieces(eventExpr, ".");
  }

  lemma {:induction false} EventStops(expression: string)
    requires HasArrow(expression)
    ensures var p := |TargetOf(expression)| + 2 + |EventOf(expression)|;
            p <= |expression| && (p == |expression| || expression[p] == '.' || expression[p] == ':' || OccursAt(expression, "->", p))
  {
    var k := IndexOf(expression, "->").value;
    EventAfterArrow(expression, k);
    var after := expression[k + 2..];
    HeadStops(after);
    ShiftStop(expression, k + 2, |EventOf(expression)|);
  }

  /** A stop found in a suffix of `s` is a stop in `s`, shifted by where the suffix starts. */
  lemma ShiftStop(s: string, j: nat, n: nat)
    requires j <= |s|
    requires var t := s[j..];
             n <= |t| && (n == |t| || t[n] == '.' || t[n] == ':' || OccursAt(t, "->", n))
    ensures var p := j + n;
            p <= |s| && (p == |s| || s[p] == '.' || s[p] == ':' || OccursAt(s, "->", p))
  {
    var t := s[j..];
    if n < |t| {
      assert s[j + n] == t[n];
      if OccursAt(t, "->", n) {
        assert s[j + n..j + n + 2] == t[n..n + 2];
      }
    }
  }

  /** The target and the event name in terms of the text after the first arrow. */
  lemma EventAfterArrow(expression: string, k: nat)
    requires HasArrow(expression) && IndexOf(expression, "->") == Some(k)
    ensures k + 2 <= |expression| && |TargetOf(expression)| == k
    ensures EventOf(expression) == Split(Split(Split(expression[k + 2..], "->")[0], ":")[0], ".")[0]
  {
    ArrowCut(expression, k);
  }

  /** The three cuts after the arrow stop at the first `->`, `:` or `.`, or run to the end. */
  lemma {:induction false} HeadStops(after: string)
    ensures var n := |Split(Split(Split(after, "->")[0], ":")[0], ".")[0]|;
            n <= |after| && (n == |after| || after[n] == '.' || after[n] == ':' || OccursAt(after, "->", n))
  {
    var rest := Split(after, "->")[0];
    var eventExpr := Split(rest, ":")[0];
    var event := Split(eventExpr, ".")[0];
    SplitHeadCut(after, "->");
    SplitHeadCut(rest, ":");
    SplitHeadCut(eventExpr, ".");
    var n := |event|;
    if event != eventExpr {
      assert eventExpr[n..n + 1] == ".";
      assert after[n] == eventExpr[n];
    } else if eventExpr != rest {
      assert rest[n..n + 1] == ":";
      assert after[n] == rest[n];
    }
  }

  /** No key holds a `+` and no modifier a `:`. */
  lemma {:induction false} ParseTokens(expression: string)
    requires HasArrow(expression)
    ensures var r := ParseEventExpression(expression);
            && (forall i :: 0 <= i < |r.keys| ==> !Contains(r.keys[i], "+"))
            && (forall i :: 0 <= i < |r.modifiers| ==> !Contains(r.modifiers[i], ":"))
  {
    SplitPieces(RestOf(expression), ":");
    SplitPieces(ComboOf(expression), "+");
  }

  // ---------------------------------------------------------------------
  // Canonical expressions: printing and parsing back
  // ---------------------------------------------------------------------

  /** The fields of a descriptor that print and parse back unambiguously. */
  predicate Canonical(d: EventExpression) {
    && '>' !in d.target
    && '>' !in d.event && ':' !in d.event && '.' !in d.event
    && (forall i :: 0 <= i < |d.keys| ==>
          '>' !in d.keys[i] && ':' !in d.keys[i] && '.' !in d.keys[i] && '+' !in d.keys[i]
          && !Blank(d.keys[i]))
    && (forall i :: 0 <= i < |d.modifiers| ==> '>' !in d.modifiers[i] && ':' !in d.modifiers[i])
    && d.key == FirstKey(d.keys)
  }

  /** `.ctrl+enter`, or nothing when there are no keys. */
  function ComboText(keys: seq<string>): string {
    if keys == [] then "" else "." + Join(keys, "+")
  }

  /** `:prevent:stop`, or nothing when there are no modifiers. */
  function ModifierText(modifiers: seq<string>): string {
    if modifiers == [] then "" else ":" + Join(modifiers, ":")
  }

  /** Writes a descriptor in the expression grammar. */
  function Format(d: EventExpression): string {
    d.target + "->" + d.event + ComboText(d.keys) + ModifierText(d.modifiers)
  }

  lemma {:induction false} CharNotInJoin(pieces: seq<string>, sep: string, c: char)
    requires |pieces| > 0 && c !in sep
    requires forall i :: 0 <= i < |pieces| ==> c !in pieces[i]
    ensures c !in Join(pieces, sep)
    decreases |pieces|
  {
    if |pieces| > 1 {
      CharNotInJoin(pieces[1..], sep, c);
    }
  }

  /** A printed canonical descriptor splits at its one arrow into the target and the rest. */
  lemma {:induction false} FormatArrow(d: EventExpression)
    requires Canonical(d)
    ensures HasArrow(Format(d))
    ensures TargetOf(Format(d)) == d.target
    ensures RestOf(Format(d)) == d.event + ComboText(d.keys) + ModifierText(d.modifiers)
  {
    var rest := d.event + ComboText(d.keys) + ModifierText(d.modifiers);
    assert Format(d) == d.target + "->" + rest;
    if d.keys != [] {
      CharNotInJoin(d.keys, "+", '>');
    }
    if d.modifiers != [] {
      CharNotInJoin(d.modifiers, ":", '>');
    }
    assert '>' !in rest;
    FirstOccurrenceAfter(d.target, "->", rest);
    SplitPeel(d.target, "->", rest);
    SplitWhole(rest, "->");
  }

  /** The modifiers come back verbatim from the `:`-split. */
  lemma {:induction false} FormatColons(eventExpr: string, modifiers: seq<string>)
    requires ':' !in eventExpr
    requires forall i :: 0 <= i < |modifiers| ==> ':' !in modifiers[i]
    ensures Split(eventExpr + ModifierText(modifiers), ":") == [eventExpr] + modifiers
  {
    if modifiers == [] {
      assert eventExpr + ModifierText(modifiers) == eventExpr;
      SplitWhole(eventExpr, ":");
    } else {
      assert eventExpr + ModifierText(modifiers) == eventExpr + ":" + Join(modifiers, ":");
      SplitPeel(eventExpr, ":", Join(modifiers, ":"));
      SplitJoin(modifiers, ":");
    }
  }

  /** The event name and the combo come back from the `.`-split, and the keys from the `+`-split. */
  lemma FormatDot(event: string, keys: seq<string>)
    requires '.' !in event
    requires forall i :: 0 <= i < |keys| ==> '.' !in keys[i] && '+' !in keys[i] && !Blank(keys[i])
    ensures var halves := Split(event + ComboText(keys), ".");
            && halves[0] == event
            && NonBlank(Split(if |halves| > 1 then halves[1] else "", "+")) == keys
  {
    DotHalves(event, keys);
    ComboKeys(keys);
  }

  /** The `.`-split of a printed event and combo: the event, then the `+`-joined keys if there are any. */
  lemma {:induction false} DotHalves(event: string, keys: seq<string>)
    requires '.' !in event
    requires forall i :: 0 <= i < |keys| ==> '.' !in keys[i]
    ensures Split(event + ComboText(keys), ".") == if keys == [] then [event] else [event, Join(keys, "+")]
  {
    if keys == [] {
      assert event + ComboText(keys) == event;
      SplitWhole(event, ".");
    } else {
      var combo := Join(keys, "+");
      assert event + ComboText(keys) == event + "." + combo;
      CharNotInJoin(keys, "+", '.');
      SplitPeel(event, ".", combo);
      SplitWhole(combo, ".");
    }
  }

  /** The keys come back from the `+`-split of the combo, with nothing filtered. */
  lemma {:induction false} ComboKeys(keys: seq<string>)
    requires forall i :: 0 <= i < |keys| ==> '+' !in keys[i] && !Blank(keys[i])
    ensures NonBlank(Split(if keys == [] then "" else Join(keys, "+"), "+")) == keys
  {
    if keys == [] {
      SplitWhole("", "+");
      assert NonBlank([""]) == [];
    } else {
      SplitJoin(keys, "+");
      NonBlankKeepsAll(keys);
    }
  }

  /** Parsing a printed canonical descriptor gives it back: nothing is lost, filtered or reordered. */
  lemma {:induction false} ParseFormat(d: EventExpression)
    requires Canonical(d)
    ensures HasArrow(Format(d)) && ParseEventExpression(Format(d)) == d
  {
    var expression := Format(d);
    FormatArrow(d);
    var eventExpr := d.event + ComboText(d.keys);
    if d.keys != [] {
      CharNotInJoin(d.keys, "+", ':');
    }
    assert ':' !in eventExpr;
    FormatColons(eventExpr, d.modifiers);
    assert EventExprOf(expression) == eventExpr;
    assert ModifiersOf(expression) == d.modifiers;
    FormatDot(d.event, d.keys);
    assert EventOf(expression) == d.event;
    assert KeysOf(expression) == d.keys;
  }

  /** The example in the documentation of `on`. */
  lemma CtrlEnterExample()
    ensures HasArrow("input->keydown.ctrl+enter:prevent")
    ensures ParseEventExpression("input->keydown.ctrl+enter:prevent")
         == EventExpression("input", "keydown", ["ctrl", "enter"], "enter", ["prevent"])
  {
    var d := EventExpression("input", "keydown", ["ctrl", "enter"], "enter", ["prevent"]);
    CtrlEnterCanonical(d);
    CtrlEnterFormat(d);
    ParseFormat(d);
  }

  lemma CtrlEnterCanonical(d: EventExpression)
    requires d == EventExpression("input", "keydown", ["ctrl", "enter"], "enter", ["prevent"])
    ensures Canonical(d)
  {
    LowerWord("input");
    LowerWord("keydown");
    LowerWord("ctrl");
    LowerWord("enter");
    LowerWord("prevent");
    CtrlEnterKeys();
    assert d.keys[0] == "ctrl" && d.keys[1] == "enter" && d.modifiers[0] == "prevent";
  }

  /** A non-empty word of lower-case letters holds no punctuation of the grammar and is not blank. */
  lemma LowerWord(w: string)
    requires |w| > 0 && forall i :: 0 <= i < |w| ==> 'a' <= w[i] <= 'z'
    ensures '>' !in w && ':' !in w && '.' !in w && '+' !in w && !Blank(w)
  {
    assert !IsJsWhitespace(w[0]);
  }

  lemma CtrlEnterKeys()
    ensures FirstKey(["ctrl", "enter"]) == "enter"
  {
    assert "ctrl" in KeyboardModifiers && "enter" !in KeyboardModifiers;
  }

  lemma CtrlEnterFormat(d: EventExpression)
    requires d == EventExpression("input", "keydown", ["ctrl", "enter"], "enter", ["prevent"])
    ensures Format(d) == "input->keydown.ctrl+enter:prevent"
  {
    assert Join(["ctrl", "enter"], "+") == "ctrl+enter";
  }

  /** A plain expression has no keys, no key and no modifiers. */
  lemma PlainClickExample()
    ensures HasArrow("panel->click")
    ensures ParseEventExpression("panel->click") == EventExpression("panel", "click", [], "", [])
  {
    var d := EventExpression("panel", "click", [], "", []);
    assert Format(d) == "panel->click";
    ParseFormat(d);
  }

  /** Only the first two `->`-separated parts are read: anything after a second arrow is ignored. */
  lemma {:induction false} ExtraArrowsIgnored(target: string, rest: string, tail: string)
    requires '>' !in target && '>' !in rest
    ensures HasArrow(target + "->" + rest + "->" + tail) && HasArrow(target + "->" + rest)
    ensures ParseEventExpression(target + "->" + rest + "->" + tail)
         == ParseEventExpression(target + "->" + rest)
  {
    var long := target + "->" + rest + "->" + tail;
    assert long == target + "->" + (rest + "->" + tail);
    FirstOccurrenceAfter(target, "->", rest + "->" + tail);
    FirstOccurrenceAfter(target, "->", rest);
    SplitPeel(target, "->", rest + "->" + tail);
    SplitPeel(rest, "->", tail);
    SplitPeel(target, "->", rest);
    SplitWhole(rest, "->");
  }
}
