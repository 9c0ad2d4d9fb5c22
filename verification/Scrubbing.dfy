/** Scrubbing reports before they leave the wallet: text patterns, and object graphs that may be cyclic. */
module Scrubbing {
  import opened Options

  const REDACTED := "[redacted]"
  const SHORTEST_RUN := 40  // hex digits: 20 bytes, the shortest bitcoin-sized value

  // ---------- Text ----------

  predicate IsHex(c: char) {
    '0' <= c <= '9' || 'a' <= c <= 'f' || 'A' <= c <= 'F'
  }

  /** A regular expression at one position: how much of the text it matches there, 0 for none.
    * It may look at the character before, as `\b` does. */
  type Matcher = (Option<char>, string) -> nat

  /** `text.replace(pattern, REDACTED)` for a global pattern that never matches the empty string. */
  function Replace(before: Option<char>, text: string, pattern: Matcher): string
    decreases text
  {
    if text == [] then []
    else
      var n := pattern(before, text);
      if 0 < n <= |text| then REDACTED + Replace(Some(text[n - 1]), text[n..], pattern)
      else [text[0]] + Replace(Some(text[0]), text[1..], pattern)
  }

  /** How many hex digits the text starts with. */
  function RunLength(text: string): (n: nat)
    ensures n <= |text|
  {
    if text == [] || !IsHex(text[0]) then 0 else 1 + RunLength(text[1..])
  }

  /** `/[0-9a-f]{40,}/gi`. */
  function HexRun(before: Option<char>, text: string): nat {
    if RunLength(text) >= SHORTEST_RUN then RunLength(text) else 0
  }

  /** What the caller's two other patterns and key test do is left open. */
  datatype Rules = Rules(bolt11: Matcher, bech32: Matcher, sensitive: string -> bool)

  function ScrubString(rules: Rules, text: string): string {
    Replace(None, Replace(None, Replace(None, text, rules.bolt11), HexRun), rules.bech32)
  }

  /** No run of 40 or more hex digits anywhere. */
  ghost predicate NoLongRun(text: string) {
    forall i :: 0 <= i <= |text| ==> RunLength(text[i..]) < SHORTEST_RUN
  }

  /** The hex pattern matches the hex digits a text starts with, all of them, if they are at least forty. */
  lemma {:induction false} HexRunIs(before: Option<char>, text: string, n: nat)
    requires n <= |text| && forall i :: 0 <= i < n ==> text[i] in "0123456789abcdefABCDEF"
    requires n < |text| ==> text[n] !in "0123456789abcdefABCDEF"
    ensures HexRun(before, text) == if n >= 40 then n else 0
  {
    RunLengthIs(text, n);
  }

  lemma HexDigits(c: char)
    ensures IsHex(c) <==> c in "0123456789abcdefABCDEF"
  {
    var all := "0123456789abcdefABCDEF";
    if '0' <= c <= '9' { assert all[c as int - '0' as int] == c; }
    if 'a' <= c <= 'f' { assert all[10 + c as int - 'a' as int] == c; }
    if 'A' <= c <= 'F' { assert all[16 + c as int - 'A' as int] == c; }
  }

  lemma {:induction false} RunLengthIs(text: string, n: nat)
    requires n <= |text| && forall i :: 0 <= i < n ==> text[i] in "0123456789abcdefABCDEF"
    requires n < |text| ==> text[n] !in "0123456789abcdefABCDEF"
    ensures RunLength(text) == n
  {
    if text != "" { HexDigits(text[0]); }
    if n > 0 {
      forall i | 0 <= i < n - 1 ensures text[1..][i] in "0123456789abcdefABCDEF" {
        assert text[1..][i] == text[i + 1];
      }
      RunLengthIs(text[1..], n - 1);
    }
  }

  lemma EmptyIsShort(text: string)
    requires text == []
    ensures NoLongRun(text)
  {
  }

  lemma {:induction false} NoLongRunCons(c: char, text: string)
    requires NoLongRun(text) && RunLength([c] + text) < SHORTEST_RUN
    ensures NoLongRun([c] + text)
  {
    forall i | 0 <= i <= |text| + 1 ensures RunLength(([c] + text)[i..]) < SHORTEST_RUN {
      if i > 0 { assert ([c] + text)[i..] == text[i - 1..]; } else { assert ([c] + text)[0..] == [c] + text; }
    }
  }

  lemma NoLongRunTail(text: string, n: nat)
    requires NoLongRun(text) && n <= |text|
    ensures NoLongRun(text[n..])
  {
  }

  lemma {:induction false} RunStops(a: string, text: string)
    requires a != [] && !IsHex(a[|a| - 1])
    ensures RunLength(a + text) < |a|
  {
    if |a| > 1 {
      assert (a + text)[1..] == a[1..] + text;
      RunStops(a[1..], text);
    }
  }

  /** A short text ending in anything but a hex digit makes no long run in front of another. */
  lemma {:induction false} PrependShort(a: string, text: string)
    requires NoLongRun(text) && 0 < |a| <= SHORTEST_RUN && !IsHex(a[|a| - 1])
    ensures NoLongRun(a + text)
  {
    var rest := if |a| == 1 then text else a[1..] + text;
    assert a + text == [a[0]] + rest;
    if |a| > 1 { PrependShort(a[1..], text); }
    RunStops(a, text);
    NoLongRunCons(a[0], rest);
  }

  /** Replacing every long run leaves none, and leaves the others as they were. */
  lemma {:induction false} HexRunsReplaced(before: Option<char>, text: string)
    ensures NoLongRun(Replace(before, text, HexRun))
    ensures RunLength(Replace(before, text, HexRun)) == if RunLength(text) < SHORTEST_RUN then RunLength(text) else 0
    decreases text
  {
    hide NoLongRun;
    var n := HexRun(before, text);
    if text == [] {
      EmptyIsShort(text);
    } else if n > 0 {
      HexRunsReplaced(Some(text[n - 1]), text[n..]);
      PrependShort(REDACTED, Replace(Some(text[n - 1]), text[n..], HexRun));
    } else {
      var rest := Replace(Some(text[0]), text[1..], HexRun);
      HexRunsReplaced(Some(text[0]), text[1..]);
      assert ([text[0]] + rest)[1..] == rest;
      NoLongRunCons(text[0], rest);
    }
  }

  /** Putting the marker in place of anything never joins two runs into a long one. */
  lemma {:induction false} ReplaceKeepsShortRuns(before: Option<char>, text: string, pattern: Matcher)
    requires NoLongRun(text)
    ensures NoLongRun(Replace(before, text, pattern))
    ensures RunLength(Replace(before, text, pattern)) <= RunLength(text)
    decreases text
  {
    if text != [] {
      var n := pattern(before, text);
      if 0 < n <= |text| {
        NoLongRunTail(text, n);
        ReplaceKeepsShortRuns(Some(text[n - 1]), text[n..], pattern);
        PrependShort(REDACTED, Replace(Some(text[n - 1]), text[n..], pattern));
      } else {
        var rest := Replace(Some(text[0]), text[1..], pattern);
        NoLongRunTail(text, 1);
        ReplaceKeepsShortRuns(Some(text[0]), text[1..], pattern);
        assert text[0..] == text && ([text[0]] + rest)[1..] == rest;
        NoLongRunCons(text[0], rest);
      }
    }
  }

  /** Whatever the two other patterns match, scrubbed text holds no run of 40 hex digits. */
  lemma ScrubbedTextHasNoLongRun(rules: Rules, text: string)
    ensures NoLongRun(ScrubString(rules, text))
  {
    var first := Replace(None, text, rules.bolt11);
    HexRunsReplaced(None, first);
    ReplaceKeepsShortRuns(None, Replace(None, first, HexRun), rules.bech32);
  }

  // ---------- What each pattern does to a text ----------

  function Prev(before: Option<char>, text: string, i: nat): Option<char>
    requires i <= |text|
  {
    if i == 0 then before else Some(text[i - 1])
  }

  predicate MatchesAt(pattern: Matcher, before: Option<char>, text: string, i: nat)
    requires i < |text|
  {
    0 < pattern(Prev(before, text, i), text[i..]) <= |text| - i
  }

  ghost predicate NoMatch(pattern: Matcher, before: Option<char>, text: string) {
    forall i: nat :: i < |text| ==> !MatchesAt(pattern, before, text, i)
  }

  lemma MatchesLater(pattern: Matcher, before: Option<char>, text: string, i: nat)
    requires i + 1 < |text|
    ensures MatchesAt(pattern, before, text, i + 1) <==> MatchesAt(pattern, Some(text[0]), text[1..], i)
    ensures Prev(before, text, i + 1) == Prev(Some(text[0]), text[1..], i) && text[i + 1..] == text[1..][i..]
  {
  }

  lemma {:induction false} Unmatched(pattern: Matcher, before: Option<char>, text: string)
    requires text != "" && !MatchesAt(pattern, before, text, 0)
    ensures Replace(before, text, pattern) == [text[0]] + Replace(Some(text[0]), text[1..], pattern)
  {
    assert text[0..] == text;
  }

  lemma NotLater(pattern: Matcher, before: Option<char>, text: string, i: nat)
    requires 0 < i <= |text| && forall j: nat :: j < i ==> !MatchesAt(pattern, before, text, j)
    ensures forall j: nat :: j < i - 1 ==> !MatchesAt(pattern, Some(text[0]), text[1..], j)
  {
    forall j: nat | j < i - 1 ensures !MatchesAt(pattern, Some(text[0]), text[1..], j) {
      assert !MatchesAt(pattern, before, text, j + 1);
      MatchesLater(pattern, before, text, j);
    }
  }

  lemma FirstInFront(text: string, i: nat, rest: string)
    requires 0 < i <= |text|
    ensures [text[0]] + (text[1..][..i - 1] + rest) == text[..i] + rest
  {
  }

  /** Up to the first match a text is left as it is. */
  lemma {:induction false} SkipUnmatched(pattern: Matcher, before: Option<char>, text: string, i: nat)
    requires i <= |text| && forall j: nat :: j < i ==> !MatchesAt(pattern, before, text, j)
    ensures Replace(before, text, pattern) == text[..i] + Replace(Prev(before, text, i), text[i..], pattern)
    decreases i
  {
    hide Replace;
    if i == 0 {
      assert text[0..] == text;
    } else {
      assert !MatchesAt(pattern, before, text, 0);
      Unmatched(pattern, before, text);
      NotLater(pattern, before, text, i);
      hide MatchesAt;
      SkipUnmatched(pattern, Some(text[0]), text[1..], i - 1);
      assert text[1..][i - 1..] == text[i..];
      FirstInFront(text, i, Replace(Prev(before, text, i), text[i..], pattern));
    }
  }

  /** The leftmost match is replaced as a whole, what is before it is left as it is, and the search goes on behind
   * it. */
  lemma ReplaceLeftmost(pattern: Matcher, before: Option<char>, text: string, i: nat)
    requires i < |text| && MatchesAt(pattern, before, text, i)
    requires forall j: nat :: j < i ==> !MatchesAt(pattern, before, text, j)
    ensures var n := pattern(Prev(before, text, i), text[i..]);
            Replace(before, text, pattern) ==
            text[..i] + (REDACTED + Replace(Some(text[i + n - 1]), text[i + n..], pattern))
  {
    SkipUnmatched(pattern, before, text, i);
    var n := pattern(Prev(before, text, i), text[i..]);
    assert text[i..][n..] == text[i + n..] && text[i..][n - 1] == text[i + n - 1];
  }

  lemma {:induction false} NothingMatched(pattern: Matcher, before: Option<char>, text: string)
    requires NoMatch(pattern, before, text)
    ensures Replace(before, text, pattern) == text
  {
    SkipUnmatched(pattern, before, text, |text|);
    assert text[..|text|] == text && text + [] == text;
  }

  /** The hex pattern changes a text iff it holds a long run: nothing else is lost to it. */
  lemma {:induction false} HexReplaceMinimal(text: string)
    ensures Replace(None, text, HexRun) == text <==> NoLongRun(text)
  {
    HexRunsReplaced(None, text);
    if NoLongRun(text) { NothingMatched(HexRun, None, text); }
  }

  ghost predicate MarkerAt(text: string, i: nat) { i <= |text| && REDACTED <= text[i..] }

  ghost predicate HasMarker(text: string) { exists i: nat :: MarkerAt(text, i) }

  lemma {:induction false} MatchLeavesMarker(pattern: Matcher, before: Option<char>, text: string)
    requires !NoMatch(pattern, before, text)
    ensures HasMarker(Replace(before, text, pattern))
    decreases text
  {
    var r := Replace(before, text, pattern);
    assert text[0..] == text;
    if MatchesAt(pattern, before, text, 0) {
      assert MarkerAt(r, 0);
    } else {
      var i: nat :| i < |text| && MatchesAt(pattern, before, text, i);
      MatchesLater(pattern, before, text, i - 1);
      MatchLeavesMarker(pattern, Some(text[0]), text[1..]);
      var rest := Replace(Some(text[0]), text[1..], pattern);
      var k: nat :| MarkerAt(rest, k);
      assert r[k + 1..] == rest[k..];
      assert MarkerAt(r, k + 1);
    }
  }

  /** A text without the marker is left as it is exactly when none of the three patterns matches anywhere in it: each of
    * them is applied, and to nothing but its matches.
    */
  lemma {:induction false} ScrubbedIff(rules: Rules, text: string)
    requires !HasMarker(text)
    ensures ScrubString(rules, text) == text <==>
            NoMatch(rules.bolt11, None, text) && NoLongRun(text) && NoMatch(rules.bech32, None, text)
  {
    hide Replace;
    hide NoMatch;
    hide HasMarker;
    hide NoLongRun;
    hide HexRun;
    var first := Replace(None, text, rules.bolt11);
    var second := Replace(None, first, HexRun);
    HexReplaceMinimal(text);
    OnePass(rules.bolt11, text);
    OnePass(HexRun, first);
    OnePass(rules.bech32, second);
  }

  lemma {:induction false} OnePass(pattern: Matcher, text: string)
    ensures NoMatch(pattern, None, text) ==> Replace(None, text, pattern) == text
    ensures !NoMatch(pattern, None, text) ==> HasMarker(Replace(None, text, pattern))
  {
    hide NoMatch;
    if NoMatch(pattern, None, text) {
      NothingMatched(pattern, None, text);
    } else {
      MatchLeavesMarker(pattern, None, text);
    }
  }

  lemma MarkerHasNoRun()
    ensures NoLongRun(REDACTED)
  {
    EmptyIsShort("");
    PrependShort(REDACTED, "");
    assert REDACTED + "" == REDACTED;
  }

  lemma {:induction false} WholeMatch(pattern: Matcher, text: string)
    requires text != "" && pattern(None, text) == |text|
    ensures Replace(None, text, pattern) == REDACTED
  {
    assert Replace(Some(text[|text| - 1]), text[|text|..], pattern) == [];
    assert REDACTED + [] == REDACTED;
  }

  /** A text that is one invoice, one long run or one address becomes one marker. The invoice pattern comes first: hex
    * digits inside an invoice are not replaced on their own.
    */
  lemma {:induction false} WholeIsOneMarker(rules: Rules, text: string)
    requires text != "" && NoMatch(rules.bech32, None, REDACTED)
    requires rules.bolt11(None, text) == |text| ||
             (NoMatch(rules.bolt11, None, text) &&
              if NoLongRun(text) then rules.bech32(None, text) == |text| else RunLength(text) == |text|)
    ensures ScrubString(rules, text) == REDACTED
  {
    MarkerHasNoRun();
    HexReplaceMinimal(REDACTED);
    HexReplaceMinimal(text);
    NothingMatched(rules.bech32, None, REDACTED);
    hide Replace;
    hide NoMatch;
    if rules.bolt11(None, text) == |text| {
      hide NoLongRun;
      WholeMatch(rules.bolt11, text);
    } else {
      NothingMatched(rules.bolt11, None, text);
      if NoLongRun(text) {
        hide NoLongRun;
        WholeMatch(rules.bech32, text);
      } else {
        var i :| 0 <= i <= |text| && RunLength(text[i..]) >= SHORTEST_RUN;
        assert HexRun(None, text) == |text|;
        hide NoLongRun;
        WholeMatch(HexRun, text);
      }
    }
  }

  // ---------- Object graphs ----------

  type Id = nat

  /** A JavaScript value; numbers, booleans, null and the like are `Primitive`. */
  datatype Value = Text(s: string) | Primitive(p: int) | Ref(id: Id)

  datatype Object = Array(items: seq<Value>) | Record(keys: seq<string>, values: seq<Value>)

  type Heap = map<Id, Object>

  /** What scrubbing builds: a finite tree. A node remembers, for the proofs only, the object it was expanded from. */
  datatype Scrubbed =
    | SText(s: string)
    | SPrimitive(p: int)
    | SArray(id: Id, items: seq<Scrubbed>)
    | SRecord(id: Id, keys: seq<string>, values: seq<Scrubbed>)

  function Children(o: Object): seq<Value> {
    match o
    case Array(items) => items
    case Record(_, values) => values
  }

  ghost predicate ObjectOk(h: Heap, o: Object) {
    (o.Record? ==> |o.keys| == |o.values|) && forall v <- Children(o) :: v.Ref? ==> v.id in h
  }

  ghost predicate Closed(h: Heap) {
    forall id <- h :: ObjectOk(h, h[id])
  }

  ghost predicate InHeap(h: Heap, v: Value) { v.Ref? ==> v.id in h }

  ghost predicate AllInHeap(h: Heap, vs: seq<Value>) { forall v <- vs :: InHeap(h, v) }

  /** `scrubValue`, threading the `seen` set. Terminates on cyclic graphs: every descent adds to `seen`. */
  function ScrubValue(rules: Rules, h: Heap, v: Value, seen: set<Id>): (r: (Scrubbed, set<Id>))
    requires Closed(h) && InHeap(h, v)
    ensures seen <= r.1 <= seen + h.Keys
    decreases |h.Keys - seen|, 0
  {
    match v
    case Text(s) => (SText(ScrubString(rules, s)), seen)
    case Primitive(p) => (SPrimitive(p), seen)
    case Ref(id) =>
      if id in seen then (SText(REDACTED), seen)
      else
        Shrinks(h.Keys, seen, id);
        var marked := seen + {id};
        match h[id]
        case Array(items) =>
          var (out, after) := ScrubItems(rules, h, items, marked);
          (SArray(id, out), after)
        case Record(keys, values) =>
          var (out, after) := ScrubFields(rules, h, keys, values, marked);
          (SRecord(id, keys, out), after)
  }

  function ScrubItems(rules: Rules, h: Heap, vs: seq<Value>, seen: set<Id>): (r: (seq<Scrubbed>, set<Id>))
    requires Closed(h) && AllInHeap(h, vs)
    ensures seen <= r.1 <= seen + h.Keys
    decreases |h.Keys - seen|, |vs|
  {
    if vs == [] then ([], seen)
    else
      var (first, mid) := ScrubValue(rules, h, vs[0], seen);
      NoLarger(h.Keys, seen, mid);
      var (rest, after) := ScrubItems(rules, h, vs[1..], mid);
      ([first] + rest, after)
  }

  function ScrubFields(rules: Rules, h: Heap, ks: seq<string>, vs: seq<Value>, seen: set<Id>)
    : (r: (seq<Scrubbed>, set<Id>))
    requires Closed(h) && AllInHeap(h, vs) && |ks| == |vs|
    ensures seen <= r.1 <= seen + h.Keys
    decreases |h.Keys - seen|, |vs|
  {
    if vs == [] then ([], seen)
    else
      var (first, mid) :=
        if rules.sensitive(ks[0]) then (SText(REDACTED), seen) else ScrubValue(rules, h, vs[0], seen);
      NoLarger(h.Keys, seen, mid);
      var (rest, after) := ScrubFields(rules, h, ks[1..], vs[1..], mid);
      ([first] + rest, after)
  }

  lemma Shrinks(all: set<Id>, seen: set<Id>, id: Id)
    requires id in all && id !in seen
    ensures |all - (seen + {id})| < |all - seen|
  {
    assert all - seen == (all - (seen + {id})) + {id};
  }

  lemma {:induction false} NoLarger(all: set<Id>, seen: set<Id>, more: set<Id>)
    requires seen <= more
    ensures |all - more| <= |all - seen|
  {
    SubsetSize(all - more, all - seen);
  }

  lemma {:induction false} SubsetSize(a: set<Id>, b: set<Id>)
    requires a <= b
    ensures |a| <= |b|
  {
    assert b == a + (b - a);
  }

  // ---------- What the result is ----------

  /** The objects expanded into the result, each as often as it was. */
  function Ids(out: Scrubbed): multiset<Id> {
    match out
    case SArray(id, items) => multiset{id} + IdsIn(items)
    case SRecord(id, _, values) => multiset{id} + IdsIn(values)
    case _ => multiset{}
  }

  function IdsIn(outs: seq<Scrubbed>): multiset<Id> {
    if outs == [] then multiset{} else Ids(outs[0]) + IdsIn(outs[1..])
  }

  /** No string in the result holds a long run of hex digits. */
  ghost predicate Clean(out: Scrubbed)
    decreases out, 0
  {
    match out
    case SText(s) => NoLongRun(s)
    case SPrimitive(_) => true
    case SArray(_, items) => AllClean(items)
    case SRecord(_, _, values) => AllClean(values)
  }

  ghost predicate AllClean(outs: seq<Scrubbed>)
    decreases outs, 1
  {
    outs == [] || (Clean(outs[0]) && AllClean(outs[1..]))
  }

  lemma MarkerIsClean()
    ensures Clean(SText(REDACTED))
  {
    MarkerHasNoRun();
  }

  /** `out` stands for `v`: strings scrubbed, primitives untouched, objects either the marker or a node of that very
    * object, of the same shape, whose children stand for theirs, fields under sensitive keys the marker whatever
    * they held. */
  ghost predicate Mirrors(rules: Rules, h: Heap, v: Value, out: Scrubbed)
    decreases out, 0
  {
    match v
    case Text(s) => out == SText(ScrubString(rules, s))
    case Primitive(p) => out == SPrimitive(p)
    case Ref(id) =>
      out == SText(REDACTED) ||
      (id in h && match (h[id], out)
       case (Array(vs), SArray(i, outs)) => i == id && MirrorItems(rules, h, vs, outs)
       case (Record(ks, vs), SRecord(i, keys, outs)) => i == id && keys == ks && MirrorFields(rules, h, ks, vs, outs)
       case _ => false)
  }

  ghost predicate MirrorItems(rules: Rules, h: Heap, vs: seq<Value>, outs: seq<Scrubbed>)
    decreases outs, 1
  {
    if vs == [] then outs == []
    else outs != [] && Mirrors(rules, h, vs[0], outs[0]) && MirrorItems(rules, h, vs[1..], outs[1..])
  }

  ghost predicate MirrorFields(rules: Rules, h: Heap, ks: seq<string>, vs: seq<Value>, outs: seq<Scrubbed>)
    decreases outs, 1
  {
    if vs == [] then outs == []
    else ks != [] && outs != [] &&
         (if rules.sensitive(ks[0]) then outs[0] == SText(REDACTED) else Mirrors(rules, h, vs[0], outs[0])) &&
         MirrorFields(rules, h, ks[1..], vs[1..], outs[1..])
  }

  /** Over the whole graph exactly the newly seen objects are expanded, each once and no other at all.
    * The result stands for the value, and no string in it holds a run of 40 hex digits. */
  lemma {:induction false} ScrubbedOnce(rules: Rules, h: Heap, v: Value, seen: set<Id>)
    requires Closed(h) && InHeap(h, v)
    ensures var (out, after) := ScrubValue(rules, h, v, seen);
            Ids(out) == multiset(after - seen) && Mirrors(rules, h, v, out) && Clean(out)
    decreases |h.Keys - seen|, 0
  {
    hide NoLongRun;
    hide ScrubString;
    hide IdsIn;
    hide MirrorItems;
    hide MirrorFields;
    hide AllClean;
    hide ScrubItems;
    hide ScrubFields;
    MarkerIsClean();
    if v.Text? {
      ScrubbedTextHasNoLongRun(rules, v.s);
    } else if v.Ref? && v.id !in seen {
      Shrinks(h.Keys, seen, v.id);
      var marked := seen + {v.id};
      match h[v.id] {
        case Array(items) =>
          ItemsScrubbedOnce(rules, h, items, marked);
          var after := ScrubItems(rules, h, items, marked).1;
          OneMore(seen, v.id, after);
        case Record(keys, values) =>
          FieldsScrubbedOnce(rules, h, keys, values, marked);
          var after := ScrubFields(rules, h, keys, values, marked).1;
          OneMore(seen, v.id, after);
      }
    }
  }

  lemma OneMore(seen: set<Id>, id: Id, after: set<Id>)
    requires id !in seen && seen + {id} <= after
    ensures multiset(after - seen) == multiset{id} + multiset(after - (seen + {id}))
  {
    assert after - seen == {id} + (after - (seen + {id}));
  }

  lemma TwoParts(seen: set<Id>, mid: set<Id>, after: set<Id>)
    requires seen <= mid <= after
    ensures multiset(after - seen) == multiset(mid - seen) + multiset(after - mid)
  {
    assert after - seen == (mid - seen) + (after - mid);
  }

  lemma {:induction false} ItemsScrubbedOnce(rules: Rules, h: Heap, vs: seq<Value>, seen: set<Id>)
    requires Closed(h) && AllInHeap(h, vs)
    ensures var (outs, after) := ScrubItems(rules, h, vs, seen);
            IdsIn(outs) == multiset(after - seen) && MirrorItems(rules, h, vs, outs) && AllClean(outs)
    decreases |h.Keys - seen|, |vs|
  {
    if vs != [] {
      var (first, mid) := ScrubValue(rules, h, vs[0], seen);
      NoLarger(h.Keys, seen, mid);
      ScrubbedOnce(rules, h, vs[0], seen);
      ItemsScrubbedOnce(rules, h, vs[1..], mid);
      var (rest, after) := ScrubItems(rules, h, vs[1..], mid);
      assert ([first] + rest)[1..] == rest;
      TwoParts(seen, mid, after);
    }
  }

  lemma {:induction false} FieldsScrubbedOnce(rules: Rules, h: Heap, ks: seq<string>, vs: seq<Value>, seen: set<Id>)
    requires Closed(h) && AllInHeap(h, vs) && |ks| == |vs|
    ensures var (outs, after) := ScrubFields(rules, h, ks, vs, seen);
            IdsIn(outs) == multiset(after - seen) && MirrorFields(rules, h, ks, vs, outs) && AllClean(outs)
    decreases |h.Keys - seen|, |vs|
  {
    if vs != [] {
      var (first, mid) :=
        if rules.sensitive(ks[0]) then (SText(REDACTED), seen) else ScrubValue(rules, h, vs[0], seen);
      NoLarger(h.Keys, seen, mid);
      MarkerIsClean();
      if !rules.sensitive(ks[0]) { ScrubbedOnce(rules, h, vs[0], seen); }
      FieldsScrubbedOnce(rules, h, ks[1..], vs[1..], mid);
      var (rest, after) := ScrubFields(rules, h, ks[1..], vs[1..], mid);
      assert ([first] + rest)[1..] == rest;
      TwoParts(seen, mid, after);
    }
  }

  // ---------- Which objects are expanded ----------

  /** The values whose keys are not sensitive. */
  function Kept(rules: Rules, ks: seq<string>, vs: seq<Value>): seq<Value>
    requires |ks| == |vs|
  {
    if vs == [] then []
    else (if rules.sensitive(ks[0]) then [] else [vs[0]]) + Kept(rules, ks[1..], vs[1..])
  }

  function Followed(rules: Rules, h: Heap, id: Id): seq<Value>
    requires Closed(h) && id in h
  {
    match h[id]
    case Array(items) => items
    case Record(keys, values) => Kept(rules, keys, values)
  }

  ghost predicate Follows(rules: Rules, h: Heap, id: Id, child: Id)
    requires Closed(h)
  {
    id in h && Ref(child) in Followed(rules, h, id)
  }

  ghost predicate IsPath(rules: Rules, h: Heap, path: seq<Id>)
    requires Closed(h)
  {
    path != [] && forall i :: 0 < i < |path| ==> Follows(rules, h, path[i - 1], path[i])
  }

  /** Some path of array elements and fields leads from `v` to the object, under no sensitive key. */
  ghost predicate Reachable(rules: Rules, h: Heap, v: Value, id: Id)
    requires Closed(h)
  {
    v.Ref? && exists path :: IsPath(rules, h, path) && path[0] == v.id && path[|path| - 1] == id
  }

  /** Whatever was marked on the way has all its children marked too. */
  ghost predicate ClosedUnder(rules: Rules, h: Heap, seen: set<Id>, after: set<Id>)
    requires Closed(h)
  {
    forall id, child :: id in after - seen && Follows(rules, h, id, child) ==> child in after
  }

  /** Redacting a field without looking at it is as good as not having it. */
  lemma {:induction false} FieldsAsItems(rules: Rules, h: Heap, ks: seq<string>, vs: seq<Value>, seen: set<Id>)
    requires Closed(h) && AllInHeap(h, vs) && |ks| == |vs|
    ensures AllInHeap(h, Kept(rules, ks, vs))
    ensures ScrubFields(rules, h, ks, vs, seen).1 == ScrubItems(rules, h, Kept(rules, ks, vs), seen).1
    decreases |vs|
  {
    if vs != [] {
      var mid := if rules.sensitive(ks[0]) then seen else ScrubValue(rules, h, vs[0], seen).1;
      var rest := Kept(rules, ks[1..], vs[1..]);
      FieldsAsItems(rules, h, ks[1..], vs[1..], mid);
      assert [] + rest == rest && ([vs[0]] + rest)[1..] == rest;
    }
  }

  lemma ReachesItself(rules: Rules, h: Heap, id: Id)
    requires Closed(h)
    ensures Reachable(rules, h, Ref(id), id)
  {
    var path := [id];
    assert IsPath(rules, h, path) && path[|path| - 1] == id;
  }

  lemma ReachesThrough(rules: Rules, h: Heap, id: Id, v: Value, to: Id)
    requires Closed(h) && id in h && v in Followed(rules, h, id) && Reachable(rules, h, v, to)
    ensures Reachable(rules, h, Ref(id), to)
  {
    var path :| IsPath(rules, h, path) && path[0] == v.id && path[|path| - 1] == to;
    var longer := [id] + path;
    forall i | 0 < i < |longer| ensures Follows(rules, h, longer[i - 1], longer[i]) {
      assert i > 1 ==> Follows(rules, h, path[i - 2], path[i - 1]);
    }
    assert IsPath(rules, h, longer) && longer[|longer| - 1] == to;
  }

  /** A visit marks its object, what it marks is reachable, and nothing marked has an unmarked child. */
  lemma {:induction false} Visits(rules: Rules, h: Heap, v: Value, seen: set<Id>)
    requires Closed(h) && InHeap(h, v)
    ensures var after := ScrubValue(rules, h, v, seen).1;
            (v.Ref? ==> v.id in after) && ClosedUnder(rules, h, seen, after) &&
            forall id :: id in after - seen ==> Reachable(rules, h, v, id)
    decreases |h.Keys - seen|, 0
  {
    if v.Ref? && v.id !in seen {
      Shrinks(h.Keys, seen, v.id);
      var (marked, children) := (seen + {v.id}, Followed(rules, h, v.id));
      if h[v.id].Record? { FieldsAsItems(rules, h, h[v.id].keys, h[v.id].values, marked); }
      hide Reachable;
      VisitsEach(rules, h, children, marked);
      ReachesItself(rules, h, v.id);
      var after := ScrubItems(rules, h, children, marked).1;
      assert ScrubValue(rules, h, v, seen).1 == after;
      forall id | id in after - marked ensures Reachable(rules, h, v, id) {
        assert ReachableFrom(rules, h, children, id);
        var child :| child in children && Reachable(rules, h, child, id);
        ReachesThrough(rules, h, v.id, child, id);
      }
    }
  }

  ghost predicate ReachableFrom(rules: Rules, h: Heap, vs: seq<Value>, id: Id)
    requires Closed(h)
  {
    exists v :: v in vs && Reachable(rules, h, v, id)
  }

  lemma ReachableFromFirst(rules: Rules, h: Heap, vs: seq<Value>, id: Id)
    requires Closed(h) && vs != []
    ensures Reachable(rules, h, vs[0], id) || ReachableFrom(rules, h, vs[1..], id) ==> ReachableFrom(rules, h, vs, id)
  {
    hide Reachable;
  }

  lemma ClosedJoin(rules: Rules, h: Heap, seen: set<Id>, mid: set<Id>, after: set<Id>)
    requires Closed(h) && mid <= after
    requires ClosedUnder(rules, h, seen, mid) && ClosedUnder(rules, h, mid, after)
    ensures ClosedUnder(rules, h, seen, after)
  {
    hide Follows;
  }

  lemma {:induction false} VisitsEach(rules: Rules, h: Heap, vs: seq<Value>, seen: set<Id>)
    requires Closed(h) && AllInHeap(h, vs)
    ensures var after := ScrubItems(rules, h, vs, seen).1;
            (forall v <- vs :: v.Ref? ==> v.id in after) && ClosedUnder(rules, h, seen, after) &&
            forall id :: id in after - seen ==> ReachableFrom(rules, h, vs, id)
    decreases |h.Keys - seen|, |vs|
  {
    hide Reachable;
    hide ReachableFrom;
    if vs != [] {
      var mid := ScrubValue(rules, h, vs[0], seen).1;
      NoLarger(h.Keys, seen, mid);
      Visits(rules, h, vs[0], seen);
      VisitsEach(rules, h, vs[1..], mid);
      var after := ScrubItems(rules, h, vs[1..], mid).1;
      assert ScrubItems(rules, h, vs, seen).1 == after;
      hide ScrubValue;
      hide ScrubItems;
      ClosedJoin(rules, h, seen, mid, after);
      hide ClosedUnder;
      forall id | id in after - seen ensures ReachableFrom(rules, h, vs, id) {
        ReachableFromFirst(rules, h, vs, id);
        assert id in mid - seen || id in after - mid;
      }
    } else {
      hide ScrubValue;
    }
  }

  lemma {:induction false} PathMarked(rules: Rules, h: Heap, path: seq<Id>, after: set<Id>)
    requires Closed(h) && IsPath(rules, h, path) && path[0] in after && ClosedUnder(rules, h, {}, after)
    ensures path[|path| - 1] in after
  {
    if |path| > 1 {
      assert Follows(rules, h, path[0], path[1]);
      assert path[0] in after - {};
      forall i | 0 < i < |path| - 1 ensures Follows(rules, h, path[1..][i - 1], path[1..][i]) {
        assert Follows(rules, h, path[i], path[i + 1]);
      }
      PathMarked(rules, h, path[1..], after);
    }
  }

  /** A whole report: every object reachable without passing a sensitive key is expanded, once, and no other is. */
  lemma {:induction false} ExpandsReachable(rules: Rules, h: Heap, v: Value, id: Id)
    requires Closed(h) && InHeap(h, v)
    ensures Ids(ScrubValue(rules, h, v, {}).0)[id] == if Reachable(rules, h, v, id) then 1 else 0
  {
    var after := ScrubValue(rules, h, v, {}).1;
    ScrubbedOnce(rules, h, v, {});
    Visits(rules, h, v, {});
    hide ScrubValue;
    hide Ids;
    assert after - {} == after;
    if Reachable(rules, h, v, id) {
      var path :| IsPath(rules, h, path) && path[0] == v.id && path[|path| - 1] == id;
      PathMarked(rules, h, path, after);
    }
  }

  // ---------- The recursion as it runs, over one shared `seen` set ----------

  class Scrubber {
    const rules: Rules
    const heap: Heap
    var seen: set<Id>

    constructor (rules: Rules, heap: Heap)
      ensures this.rules == rules && this.heap == heap && seen == {}
    {
      this.rules, this.heap, seen := rules, heap, {};
    }

    method Scrub(v: Value) returns (out: Scrubbed)
      requires Closed(heap) && InHeap(heap, v)
      modifies this
      ensures (out, seen) == ScrubValue(rules, heap, v, old(seen))
      decreases |heap.Keys - seen|, 0
    {
      match v
      case Text(s) => out := SText(ScrubString(rules, s));
      case Primitive(p) => out := SPrimitive(p);
      case Ref(id) =>
        if id in seen {
          return SText(REDACTED);
        }
        Shrinks(heap.Keys, seen, id);
        seen := seen + {id};
        match heap[id] {
          case Array(items) =>
            var outs := ScrubEach(items);
            out := SArray(id, outs);
          case Record(keys, values) =>
            var outs := ScrubEntries(keys, values);
            out := SRecord(id, keys, outs);
        }
    }

    method ScrubEach(vs: seq<Value>) returns (outs: seq<Scrubbed>)
      requires Closed(heap) && AllInHeap(heap, vs)
      modifies this
      ensures (outs, seen) == ScrubItems(rules, heap, vs, old(seen))
      decreases |heap.Keys - seen|, |vs|
    {
      if vs == [] {
        return [];
      }
      ghost var before := seen;
      var first := Scrub(vs[0]);
      NoLarger(heap.Keys, before, seen);
      var rest := ScrubEach(vs[1..]);
      outs := [first] + rest;
    }

    method ScrubEntries(ks: seq<string>, vs: seq<Value>) returns (outs: seq<Scrubbed>)
      requires Closed(heap) && AllInHeap(heap, vs) && |ks| == |vs|
      modifies this
      ensures (outs, seen) == ScrubFields(rules, heap, ks, vs, old(seen))
      decreases |heap.Keys - seen|, |vs|
    {
      if vs == [] {
        return [];
      }
      ghost var before := seen;
      var first := SText(REDACTED);
      if !rules.sensitive(ks[0]) {
        first := Scrub(vs[0]);
      }
      NoLarger(heap.Keys, before, seen);
      var rest := ScrubEntries(ks[1..], vs[1..]);
      outs := [first] + rest;
    }
  }
}
