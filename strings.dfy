/**
  The few JavaScript string operations the framework relies on, written out
  with their ECMAScript semantics: `String.prototype.split` with a string
  separator and with the regular expression `/ +/`, the truthiness of
  `trim()`, ASCII `toLowerCase()` and `Number.prototype.toString()` on a
  non-negative integer.
*/
module JsStrings {
  import opened Optional

  // ---------------------------------------------------------------------
  // Occurrences of a separator
  // ---------------------------------------------------------------------

  /** `sep` occurs in `s` starting at position `i`. */
  predicate OccursAt(s: string, sep: string, i: nat) {
    i + |sep| <= |s| && s[i..i + |sep|] == sep
  }

  /** The first position at or after `from` where `sep` occurs, scanning left to right. */
  function IndexFrom(s: string, sep: string, from: nat): (r: Option<nat>)
    requires from <= |s|
    decreases |s| - from
    ensures r.Some? ==> from <= r.value && OccursAt(s, sep, r.value)
    ensures r.Some? ==> forall j :: from <= j < r.value ==> !OccursAt(s, sep, j)
    ensures r.None? ==> forall j :: from <= j <= |s| ==> !OccursAt(s, sep, j)
  {
    if from + |sep| > |s| then None
    else if s[from..from + |sep|] == sep then Some(from)
    else IndexFrom(s, sep, from + 1)
  }

  /** `s.indexOf(sep)`, with `None` standing for -1. */
  function IndexOf(s: string, sep: string): Option<nat> {
    IndexFrom(s, sep, 0)
  }

  predicate Contains(s: string, sep: string) {
    IndexOf(s, sep).Some?
  }

  lemma ContainsIff(s: string, sep: string)
    ensures Contains(s, sep) <==> exists j :: 0 <= j <= |s| && OccursAt(s, sep, j)
  {
  }

  /** A separator whose last character appears nowhere else in it ("->", or any single character). */
  predicate SelfDelimiting(sep: string) {
    |sep| > 0 && sep[|sep| - 1] !in sep[..|sep| - 1]
  }

  /** A string in which the last character of `sep` never appears cannot contain `sep`. */
  lemma {:induction false} NoLastCharNoOccurrence(s: string, sep: string)
    requires |sep| > 0 && sep[|sep| - 1] !in s
    ensures !Contains(s, sep)
  {
    forall j | 0 <= j <= |s| ensures !OccursAt(s, sep, j) {
      if j + |sep| <= |s| {
        assert s[j..j + |sep|][|sep| - 1] in s;
      }
    }
    ContainsIff(s, sep);
  }

  /** A prefix of a string that does not contain `sep` does not contain it either. */
  lemma {:induction false} PrefixNoOccurrence(s: string, sep: string, n: nat)
    requires n <= |s| && !Contains(s, sep)
    ensures !Contains(s[..n], sep)
  {
    ContainsIff(s, sep);
    ContainsIff(s[..n], sep);
    forall j | 0 <= j <= n && OccursAt(s[..n], sep, j) ensures false {
      assert s[..n][j..j + |sep|] == s[j..j + |sep|];
      assert OccursAt(s, sep, j);
    }
  }

  /** The first occurrence of a self-delimiting `sep` in `a + sep + b` is the one right after `a`, when `a` lacks its last character. */
  lemma {:induction false} FirstOccurrenceAfter(a: string, sep: string, b: string)
    requires SelfDelimiting(sep) && sep[|sep| - 1] !in a
    ensures IndexOf(a + sep + b, sep) == Some(|a|)
  {
    var s := a + sep + b;
    var last := sep[|sep| - 1];
    assert s[|a|..|a| + |sep|] == sep;
    forall j | 0 <= j < |a| ensures !OccursAt(s, sep, j) {
      var p := j + |sep| - 1;
      assert p < |s|;
      assert s[j..j + |sep|][|sep| - 1] == s[p];
      if p < |a| {
        assert s[p] == a[p];
        assert s[p] in a;
      } else {
        assert s[p] == sep[p - |a|];
        assert sep[p - |a|] in sep[..|sep| - 1];
      }
    }
    assert OccursAt(s, sep, |a|);
  }

  // ---------------------------------------------------------------------
  // String.prototype.split with a string separator
  // ---------------------------------------------------------------------

  /** Pieces joined back with the separator between them (`Array.prototype.join`). */
  function Join(pieces: seq<string>, sep: string): string
    requires |pieces| > 0
  {
    if |pieces| == 1 then pieces[0] else pieces[0] + sep + Join(pieces[1..], sep)
  }

  /**
    `s.split(sep)`: cuts `s` at every occurrence of `sep`, found left to right
    without overlap. A string with no occurrence gives a single piece (the
    empty string gives `[""]`).
  */
  function Split(s: string, sep: string): (r: seq<string>)
    requires |sep| > 0
    decreases |s|
    ensures |r| >= 1
  {
    match IndexOf(s, sep)
    case None => [s]
    case Some(k) => [s[..k]] + Split(s[k + |sep|..], sep)
  }

  /** No piece of a split contains the separator. */
  lemma {:induction false} SplitPieces(s: string, sep: string)
    requires |sep| > 0
    ensures forall i :: 0 <= i < |Split(s, sep)| ==> !Contains(Split(s, sep)[i], sep)
    decreases |s|
  {
    match IndexOf(s, sep)
    case None =>
    case Some(k) =>
      var rest := s[k + |sep|..];
      var r := [s[..k]] + Split(rest, sep);
      assert Split(s, sep) == r;
      PieceBeforeFirst(s, sep, k);
      SplitPieces(rest, sep);
      forall i | 0 <= i < |r| ensures !Contains(r[i], sep) {
        if i > 0 {
          assert r[i] == Split(rest, sep)[i - 1];
        }
      }
  }

  /** Joining the pieces of a split with the separator gives the string back. */
  lemma {:induction false} JoinSplit(s: string, sep: string)
    requires |sep| > 0
    ensures Join(Split(s, sep), sep) == s
    decreases |s|
  {
    match IndexOf(s, sep)
    case None =>
    case Some(k) =>
      var rest := s[k + |sep|..];
      var r := [s[..k]] + Split(rest, sep);
      assert Split(s, sep) == r;
      assert r[1..] == Split(rest, sep);
      JoinSplit(rest, sep);
      assert k + |sep| <= |s| && s[k..k + |sep|] == sep;
      assert s == s[..k] + sep + rest;
  }

  lemma {:induction false} PieceBeforeFirst(s: string, sep: string, k: nat)
    requires |sep| > 0 && IndexOf(s, sep) == Some(k)
    ensures k + |sep| <= |s| && !Contains(s[..k], sep)
  {
    ContainsIff(s[..k], sep);
    forall j | 0 <= j <= k && OccursAt(s[..k], sep, j) ensures false {
      assert s[..k][j..j + |sep|] == s[j..j + |sep|];
      assert OccursAt(s, sep, j);
    }
  }

  /** The first piece of a split is a prefix of the string. */
  lemma {:induction false} SplitHeadIsPrefix(s: string, sep: string)
    requires |sep| > 0
    ensures Split(s, sep)[0] <= s
  {
  }

  /** The first piece of a split stops at the first occurrence of the separator, or is the whole string. */
  lemma {:induction false} SplitHeadCut(s: string, sep: string)
    requires |sep| > 0
    ensures var h := Split(s, sep)[0];
            h <= s && (h == s || OccursAt(s, sep, |h|))
  {
    match IndexOf(s, sep)
    case None =>
    case Some(k) =>
      assert Split(s, sep)[0] == s[..k];
  }

  /** Splitting a string that lacks the last character of `sep` leaves it whole. */
  lemma {:induction false} SplitWhole(s: string, sep: string)
    requires |sep| > 0 && sep[|sep| - 1] !in s
    ensures Split(s, sep) == [s]
  {
    NoLastCharNoOccurrence(s, sep);
  }

  /** Splitting `a + sep + b` peels `a` off when `a` lacks the last character of `sep`. */
  lemma {:induction false} SplitPeel(a: string, sep: string, b: string)
    requires SelfDelimiting(sep) && sep[|sep| - 1] !in a
    ensures Split(a + sep + b, sep) == [a] + Split(b, sep)
  {
    var s := a + sep + b;
    FirstOccurrenceAfter(a, sep, b);
    assert s[..|a|] == a;
    assert s[|a| + |sep|..] == b;
  }

  /**
    Split undoes Join: pieces that lack the last character of a
    self-delimiting separator come back unchanged.
  */
  lemma {:induction false} SplitJoin(pieces: seq<string>, sep: string)
    requires |pieces| > 0 && SelfDelimiting(sep)
    requires forall i :: 0 <= i < |pieces| ==> sep[|sep| - 1] !in pieces[i]
    ensures Split(Join(pieces, sep), sep) == pieces
    decreases |pieces|
  {
    var head, tail := pieces[0], pieces[1..];
    if |pieces| == 1 {
      SplitWhole(head, sep);
    } else {
      assert Join(pieces, sep) == head + sep + Join(tail, sep);
      SplitPeel(head, sep, Join(tail, sep));
      LackTail(pieces, sep[|sep| - 1]);
      SplitJoin(tail, sep);
      assert pieces == [head] + tail;
    }
  }

  lemma LackTail(pieces: seq<string>, c: char)
    requires |pieces| > 0
    requires forall i :: 0 <= i < |pieces| ==> c !in pieces[i]
    ensures forall i :: 0 <= i < |pieces[1..]| ==> c !in pieces[1..][i]
  {
    forall i | 0 <= i < |pieces[1..]| ensures c !in pieces[1..][i] {
      assert pieces[1..][i] == pieces[i + 1];
    }
  }

  // ---------------------------------------------------------------------
  // String.prototype.split(/ +/)
  // ---------------------------------------------------------------------

  /** Where the regular expression `/ +/` first matches in `s`: the first space, if any. */
  function FirstSpace(s: string): (r: Option<nat>)
    ensures r.Some? ==> r.value < |s| && s[r.value] == ' ' && ' ' !in s[..r.value]
    ensures r.None? ==> ' ' !in s
  {
    if s == [] then None
    else if s[0] == ' ' then Some(0)
    else match FirstSpace(s[1..])
      case None => None
      case Some(k) =>
        assert s[..k + 1] == [s[0]] + s[1..][..k];
        Some(k + 1)
  }

  /** The first space is the one with no space before it. */
  lemma FirstSpaceAt(s: string, k: nat)
    requires k < |s| && s[k] == ' ' && ' ' !in s[..k]
    ensures FirstSpace(s) == Some(k)
  {
    match FirstSpace(s)
    case None =>
    case Some(j) =>
  }

  /** `s` after the run of spaces that starts it: the rest of one match of `/ +/`. */
  function SkipSpaces(s: string): (r: string)
    ensures |r| <= |s|
    ensures r == [] || r[0] != ' '
  {
    if s != [] && s[0] == ' ' then SkipSpaces(s[1..]) else s
  }

  /** Shorthand: `s` with every space removed. */
  function WithoutSpaces(s: string): string {
    if s == [] then [] else (if s[0] == ' ' then [] else [s[0]]) + WithoutSpaces(s[1..])
  }

  function Concat(pieces: seq<string>): string {
    if pieces == [] then [] else pieces[0] + Concat(pieces[1..])
  }

  /**
    `s.split(/ +/)`: cuts `s` at every maximal run of spaces (U+0020 only).
    A leading run gives an empty first piece and a trailing run an empty last
    piece; `""` gives `[""]`.
  */
  function SplitSpaces(s: string): (r: seq<string>)
    decreases |s|
    ensures |r| >= 1
  {
    match FirstSpace(s)
    case None => [s]
    case Some(k) => [s[..k]] + SplitSpaces(SkipSpaces(s[k + 1..]))
  }

  /** Every piece of a split, as a predicate on the list of pieces: none holds a space. */
  predicate SpaceFree(pieces: seq<string>) {
    forall i :: 0 <= i < |pieces| ==> ' ' !in pieces[i]
  }

  /** No piece of `SplitSpaces` holds a space. */
  lemma {:induction false} SplitSpacesNoSpaces(s: string)
    decreases |s|
    ensures SpaceFree(SplitSpaces(s))
  {
    match FirstSpace(s)
    case None =>
      assert SplitSpaces(s) == [s];
    case Some(k) =>
      var rest := SkipSpaces(s[k + 1..]);
      SplitSpacesNoSpaces(rest);
      assert SplitSpaces(s) == [s[..k]] + SplitSpaces(rest);
      NoSpaceCons(s[..k], SplitSpaces(rest));
  }

  lemma NoSpaceCons(head: string, tail: seq<string>)
    requires ' ' !in head && SpaceFree(tail)
    ensures SpaceFree([head] + tail)
  {
    forall i | 0 <= i < |[head] + tail| ensures ' ' !in ([head] + tail)[i] {
      if i > 0 {
        assert ([head] + tail)[i] == tail[i - 1];
      }
    }
  }

  /** Together the pieces of `SplitSpaces` are `s` without its spaces. */
  lemma {:induction false} SplitSpacesConcat(s: string)
    decreases |s|
    ensures Concat(SplitSpaces(s)) == WithoutSpaces(s)
  {
    match FirstSpace(s)
    case None =>
      NoSpaceUnchanged(s);
      assert Concat([s]) == s + Concat([]);
    case Some(k) =>
      var rest := SkipSpaces(s[k + 1..]);
      SplitSpacesConcat(rest);
      CutRemovesSpaces(s, k);
      assert SplitSpaces(s) == [s[..k]] + SplitSpaces(rest);
      ConcatCons(s[..k], SplitSpaces(rest));
  }

  lemma ConcatCons(head: string, tail: seq<string>)
    ensures Concat([head] + tail) == head + Concat(tail)
  {
    assert ([head] + tail)[1..] == tail;
  }

  /** One cut of `SplitSpaces` loses only spaces. */
  lemma {:induction false} CutRemovesSpaces(s: string, k: nat)
    requires FirstSpace(s) == Some(k)
    ensures WithoutSpaces(s) == s[..k] + WithoutSpaces(SkipSpaces(s[k + 1..]))
  {
    var piece, tail := s[..k], s[k + 1..];
    assert s == piece + ([' '] + tail);
    WithoutSpacesAppend(piece, [' '] + tail);
    NoSpaceUnchanged(piece);
    assert ([' '] + tail)[1..] == tail;
    SkipSpacesRemovesSpaces(tail);
  }

  lemma {:induction false} SkipSpacesRemovesSpaces(s: string)
    ensures WithoutSpaces(SkipSpaces(s)) == WithoutSpaces(s)
    decreases |s|
  {
    if s != [] && s[0] == ' ' {
      SkipSpacesRemovesSpaces(s[1..]);
    }
  }

  /** No piece strictly between the first and the last is empty. */
  predicate InnerNonEmpty(r: seq<string>) {
    forall i :: 1 <= i < |r| - 1 ==> r[i] != ""
  }

  /** Only the first and the last piece of `SplitSpaces` can be empty. */
  lemma {:induction false} SplitSpacesNonEmpty(s: string)
    decreases |s|
    ensures InnerNonEmpty(SplitSpaces(s))
  {
    match FirstSpace(s)
    case None =>
      assert SplitSpaces(s) == [s];
    case Some(k) =>
      var rest := SkipSpaces(s[k + 1..]);
      SplitSpacesNonEmpty(rest);
      SplitSpacesFirstNonEmpty(rest);
      if rest == [] {
        assert SplitSpaces(rest) == [[]];
      }
      assert SplitSpaces(s) == [s[..k]] + SplitSpaces(rest);
      NonEmptyCons(s[..k], SplitSpaces(rest));
  }

  /** A string that does not start with a space has a non-empty first piece. */
  lemma SplitSpacesFirstNonEmpty(s: string)
    ensures s != [] && s[0] != ' ' ==> SplitSpaces(s)[0] != ""
  {
  }

  lemma NonEmptyCons(head: string, tail: seq<string>)
    requires InnerNonEmpty(tail)
    requires |tail| <= 1 || tail[0] != ""
    ensures InnerNonEmpty([head] + tail)
  {
    forall i | 1 <= i < |[head] + tail| - 1 ensures ([head] + tail)[i] != "" {
      assert ([head] + tail)[i] == tail[i - 1];
    }
  }

  /** A string without spaces is one piece. */
  lemma SplitSpacesNoSpace(s: string)
    requires ' ' !in s
    ensures SplitSpaces(s) == [s]
  {
  }

  /** Two space-free words joined by one space split back into the two words. */
  lemma {:induction false} SplitSpacesPair(a: string, b: string)
    requires ' ' !in a && ' ' !in b
    ensures SplitSpaces(a + " " + b) == [a, b]
  {
    var s := a + " " + b;
    assert s[..|a|] == a;
    FirstSpaceAt(s, |a|);
    assert s[|a| + 1..] == b;
    assert SkipSpaces(b) == b;
    SplitSpacesNoSpace(b);
  }

  /** A run of one or more spaces: what one match of `/ +/` consumes. */
  predicate Gap(g: string) {
    |g| > 0 && forall i :: 0 <= i < |g| ==> g[i] == ' '
  }

  /** `words` with `gaps[i]` between `words[i]` and `words[i + 1]`. */
  function Spaced(words: seq<string>, gaps: seq<string>): string
    requires |words| >= 1 && |gaps| == |words| - 1
    decreases |words|
  {
    if |words| == 1 then words[0] else words[0] + gaps[0] + Spaced(words[1..], gaps[1..])
  }

  /** The runs of spaces `SplitSpaces` cuts `s` at, in order. */
  function Gaps(s: string): seq<string>
    decreases |s|
  {
    match FirstSpace(s)
    case None => []
    case Some(k) =>
      var r := SkipSpaces(s[k + 1..]);
      [s[k..|s| - |r|]] + Gaps(r)
  }

  /** Skipping spaces drops a leading run of spaces and keeps the rest. */
  lemma {:induction false} SkipSpacesSuffix(s: string)
    ensures var r := SkipSpaces(s);
            r == s[|s| - |r|..] && forall i :: 0 <= i < |s| - |r| ==> s[i] == ' '
    decreases |s|
  {
    if s != [] && s[0] == ' ' {
      SkipSpacesSuffix(s[1..]);
    }
  }

  /** Spaces followed by a non-space (or nothing) are skipped exactly. */
  lemma {:induction false} SkipSpacesRun(g: string, t: string)
    requires forall i :: 0 <= i < |g| ==> g[i] == ' '
    requires t == [] || t[0] != ' '
    ensures SkipSpaces(g + t) == t
    decreases |g|
  {
    if g == [] {
      assert g + t == t;
    } else {
      assert (g + t)[1..] == g[1..] + t;
      SkipSpacesRun(g[1..], t);
    }
  }

  /** A spaced string starts with its first word. */
  lemma SpacedHead(words: seq<string>, gaps: seq<string>)
    requires |words| >= 1 && |gaps| == |words| - 1
    ensures words[0] <= Spaced(words, gaps)
  {
  }

  /**
    Every string is its pieces put back with the runs of spaces that
    separated them: with `SplitSpacesSpaced`, `SplitSpaces` returns exactly
    the words of the string.
  */
  lemma {:induction false} SpacedSplitSpaces(s: string)
    ensures |Gaps(s)| == |SplitSpaces(s)| - 1
    ensures forall i :: 0 <= i < |Gaps(s)| ==> Gap(Gaps(s)[i])
    ensures Spaced(SplitSpaces(s), Gaps(s)) == s
    decreases |s|
  {
    match FirstSpace(s)
    case None =>
    case Some(k) =>
      var r := SkipSpaces(s[k + 1..]);
      var g := s[k..|s| - |r|];
      RunIsGap(s, k);
      SpacedSplitSpaces(r);
      var ws, gs := SplitSpaces(s), Gaps(s);
      assert ws[1..] == SplitSpaces(r) && gs[1..] == Gaps(r);
      assert Spaced(ws, gs) == s[..k] + g + Spaced(SplitSpaces(r), Gaps(r));
  }

  /** Where `SplitSpaces` cuts: the piece before the first space, the run of spaces, and the rest. */
  lemma RunIsGap(s: string, k: nat)
    requires k < |s| && s[k] == ' '
    ensures var r := SkipSpaces(s[k + 1..]);
            Gap(s[k..|s| - |r|]) && s == s[..k] + s[k..|s| - |r|] + r
  {
    var t := s[k + 1..];
    var r := SkipSpaces(t);
    SkipSpacesSuffix(t);
    var g := s[k..|s| - |r|];
    forall i | 0 <= i < |g| ensures g[i] == ' ' {
      if i > 0 {
        assert g[i] == t[i - 1];
      }
    }
    assert r == s[|s| - |r|..];
  }

  /**
    Space-free words set apart by runs of spaces split back into those
    words, provided no word strictly between the first and last is empty (an
    empty inner word would merge two runs into one).
  */
  lemma {:induction false} SplitSpacesSpaced(words: seq<string>, gaps: seq<string>)
    requires |words| >= 1 && |gaps| == |words| - 1
    requires SpaceFree(words) && InnerNonEmpty(words)
    requires forall i :: 0 <= i < |gaps| ==> Gap(gaps[i])
    ensures SplitSpaces(Spaced(words, gaps)) == words
    decreases |words|
  {
    if |words| == 1 {
      SplitSpacesNoSpace(words[0]);
    } else {
      var w, g := words[0], gaps[0];
      var rest := Spaced(words[1..], gaps[1..]);
      var s := Spaced(words, gaps);
      assert s == w + g + rest;
      assert s[..|w|] == w;
      assert s[|w|] == g[0];
      FirstSpaceAt(s, |w|);
      assert s[|w| + 1..] == g[1..] + rest;
      assert SpaceFree(words[1..]) by {
        forall i | 0 <= i < |words[1..]| ensures ' ' !in words[1..][i] {
          assert words[1..][i] == words[i + 1];
        }
      }
      assert InnerNonEmpty(words[1..]) by {
        forall i | 1 <= i < |words[1..]| - 1 ensures words[1..][i] != "" {
          assert words[1..][i] == words[i + 1];
        }
      }
      SpacedHead(words[1..], gaps[1..]);
      if words[1] != [] {
        assert rest[0] == words[1][0];
        assert ' ' !in words[1];
      } else {
        assert |words| == 2;
      }
      SkipSpacesRun(g[1..], rest);
      SplitSpacesSpaced(words[1..], gaps[1..]);
      assert words == [w] + words[1..];
    }
  }

  lemma {:induction false} NoSpaceUnchanged(s: string)
    requires ' ' !in s
    ensures WithoutSpaces(s) == s
    decreases |s|
  {
    if s != [] {
      NoSpaceUnchanged(s[1..]);
    }
  }

  lemma {:induction false} WithoutSpacesAppend(a: string, b: string)
    ensures WithoutSpaces(a + b) == WithoutSpaces(a) + WithoutSpaces(b)
    decreases |a|
  {
    if a == [] {
      assert a + b == b;
    } else {
      assert (a + b)[0] == a[0];
      assert (a + b)[1..] == a[1..] + b;
      WithoutSpacesAppend(a[1..], b);
    }
  }

  /** `.filter(Boolean)` on strings: keeps the non-empty ones. */
  function NonEmpty(pieces: seq<string>): (r: seq<string>)
    ensures forall i :: 0 <= i < |r| ==> r[i] != "" && r[i] in pieces
    ensures forall p :: p in pieces && p != "" ==> p in r
  {
    if pieces == [] then []
    else (if pieces[0] == "" then [] else [pieces[0]]) + NonEmpty(pieces[1..])
  }

  /** Pieces that are all non-empty pass the filter unchanged. */
  lemma {:induction false} NonEmptyKeepsAll(pieces: seq<string>)
    requires forall i :: 0 <= i < |pieces| ==> pieces[i] != ""
    ensures NonEmpty(pieces) == pieces
    decreases |pieces|
  {
    if pieces != [] {
      assert forall i :: 0 <= i < |pieces[1..]| ==> pieces[1..][i] == pieces[i + 1];
      NonEmptyKeepsAll(pieces[1..]);
      assert pieces == [pieces[0]] + pieces[1..];
    }
  }

  // ---------------------------------------------------------------------
  // trim(), toLowerCase()
  // ---------------------------------------------------------------------

  /** The characters `String.prototype.trim` removes: ECMAScript WhiteSpace and LineTerminator. */
  predicate IsJsWhitespace(c: char) {
    c == '\t' || c == '\n' || c == '\U{000B}' || c == '\U{000C}' || c == '\r' || c == ' '
    || c == '\U{00A0}' || c == '\U{1680}' || ('\U{2000}' <= c <= '\U{200A}')
    || c == '\U{2028}' || c == '\U{2029}' || c == '\U{202F}' || c == '\U{205F}'
    || c == '\U{3000}' || c == '\U{FEFF}'
  }

  /** `s.trim()` is the empty string, i.e. falsy. */
  predicate Blank(s: string) {
    forall i :: 0 <= i < |s| ==> IsJsWhitespace(s[i])
  }

  /** `.filter((key) => key.trim())`: keeps the pieces whose trim is non-empty, untrimmed. */
  function NonBlank(pieces: seq<string>): (r: seq<string>)
    ensures |r| <= |pieces|
    ensures forall i :: 0 <= i < |r| ==> !Blank(r[i]) && r[i] in pieces
    ensures forall p :: p in pieces && !Blank(p) ==> p in r
  {
    if pieces == [] then []
    else (if Blank(pieces[0]) then [] else [pieces[0]]) + NonBlank(pieces[1..])
  }

  lemma {:induction false} NonBlankKeepsAll(pieces: seq<string>)
    requires forall i :: 0 <= i < |pieces| ==> !Blank(pieces[i])
    ensures NonBlank(pieces) == pieces
    decreases |pieces|
  {
    if pieces != [] {
      NonBlankKeepsAll(pieces[1..]);
    }
  }

  function LowerChar(c: char): char {
    if 'A' <= c <= 'Z' then (c as int + 32) as char else c
  }

  /** `toLowerCase()` on the ASCII range; other characters are kept. */
  function ToLower(s: string): (r: string)
    ensures |r| == |s|
    ensures forall i :: 0 <= i < |s| ==> r[i] == LowerChar(s[i])
  {
    if s == [] then [] else [LowerChar(s[0])] + ToLower(s[1..])
  }

  // ---------------------------------------------------------------------
  // Number.prototype.toString() on a natural number, and its inverse
  // ---------------------------------------------------------------------

  function Digit(d: nat): char
    requires d < 10
  {
    ('0' as int + d) as char
  }

  /** The decimal representation of `n`, without leading zeros. */
  function NatToString(n: nat): (r: string)
    ensures |r| >= 1
    ensures forall i :: 0 <= i < |r| ==> '0' <= r[i] <= '9'
    ensures r[0] == '0' ==> n == 0
  {
    if n < 10 then [Digit(n)] else NatToString(n / 10) + [Digit(n % 10)]
  }

  /** Reads a string of decimal digits back. */
  function DecimalValue(s: string): nat
    requires forall i :: 0 <= i < |s| ==> '0' <= s[i] <= '9'
  {
    if s == [] then 0
    else 10 * DecimalValue(s[..|s| - 1]) + (s[|s| - 1] as int - '0' as int)
  }

  lemma {:induction false} DecimalRoundTrip(n: nat)
    ensures DecimalValue(NatToString(n)) == n
  {
    if n >= 10 {
      var s := NatToString(n);
      assert s[..|s| - 1] == NatToString(n / 10);
      DecimalRoundTrip(n / 10);
    }
  }

  /** Different numbers print differently, so a counter never repeats an id. */
  lemma NatToStringInjective(m: nat, n: nat)
    requires m != n
    ensures NatToString(m) != NatToString(n)
  {
    DecimalRoundTrip(m);
    DecimalRoundTrip(n);
  }
}
