/** UTF-8 and UTF-16, as the wallet's bindings rely on them.
  *
  * A Dafny `char` is a Unicode scalar value, so a `string` is what `TextEncoder`, Swift's
  * `String` and `encodeURIComponent` all work on. JavaScript's own strings are sequences of
  * UTF-16 code units, which may hold lone surrogates; they are `seq<CodeUnit>`.
  */
module Unicode {
  import opened Options

  type byte = b: int | 0 <= b < 0x100
  type CodeUnit = u: int | 0 <= u < 0x1_0000

  const REPLACEMENT: char := '\U{FFFD}'

  // ---------- UTF-8 (RFC 3629, sections 3 and 4) ----------

  function EncodeChar(c: char): (b: seq<byte>)
    ensures 1 <= |b| <= 4
  {
    var v := c as int;
    if v < 0x80 then [v]
    else if v < 0x800 then [0xC0 + v / 0x40, 0x80 + v % 0x40]
    else if v < 0x1_0000 then [0xE0 + v / 0x40 / 0x40, 0x80 + v / 0x40 % 0x40, 0x80 + v % 0x40]
    else [0xF0 + v / 0x40 / 0x40 / 0x40, 0x80 + v / 0x40 / 0x40 % 0x40, 0x80 + v / 0x40 % 0x40, 0x80 + v % 0x40]
  }

  function EncodeUtf8(s: string): seq<byte> {
    if s == [] then [] else EncodeChar(s[0]) + EncodeUtf8(s[1..])
  }

  predicate IsTail(b: byte) { 0x80 <= b < 0xC0 }

  /** The number of bytes the sequence starting with `lead` has, 0 if none can start with it. */
  function SequenceLength(lead: byte): nat {
    if lead < 0x80 then 1
    else if 0xC2 <= lead < 0xE0 then 2
    else if 0xE0 <= lead < 0xF0 then 3
    else if 0xF0 <= lead < 0xF5 then 4
    else 0
  }

  /** Whether `second` may follow `lead`: rules out overlong forms, surrogates and values past U+10FFFF. */
  predicate IsSecond(lead: byte, second: byte) {
    IsTail(second) &&
    (lead == 0xE0 ==> 0xA0 <= second) && (lead == 0xED ==> second < 0xA0) &&
    (lead == 0xF0 ==> 0x90 <= second) && (lead == 0xF4 ==> second < 0x90)
  }

  /** How many leading bytes of `b` can begin one well-formed sequence. */
  function ValidPrefix(b: seq<byte>): (n: nat)
    ensures n <= |b| && n <= 4
  {
    if b == [] || SequenceLength(b[0]) == 0 then 0
    else if SequenceLength(b[0]) == 1 || |b| == 1 || !IsSecond(b[0], b[1]) then 1
    else if SequenceLength(b[0]) == 2 || |b| == 2 || !IsTail(b[2]) then 2
    else if SequenceLength(b[0]) == 3 || |b| == 3 || !IsTail(b[3]) then 3
    else 4
  }

  /** The low six bits of a byte after the first. */
  function Six(b: byte): int { b as int - 0x80 }

  /** The bits of one sequence put back together. */
  function Payload(b: seq<byte>): int
    requires 1 <= |b| <= 4
  {
    match |b|
    case 1 => b[0]
    case 2 => (b[0] as int - 0xC0) * 0x40 + Six(b[1])
    case 3 => ((b[0] as int - 0xE0) * 0x40 + Six(b[1])) * 0x40 + Six(b[2])
    case _ => (((b[0] as int - 0xF0) * 0x40 + Six(b[1])) * 0x40 + Six(b[2])) * 0x40 + Six(b[3])
  }

  /** The scalar value at the start of `b`, if a whole well-formed sequence is there. */
  function DecodeChar(b: seq<byte>): (r: Option<char>)
    ensures r.Some? ==> b != [] && 1 <= SequenceLength(b[0]) <= |b|
  {
    if b == [] || SequenceLength(b[0]) == 0 || ValidPrefix(b) < SequenceLength(b[0]) then None
    else Some(Payload(b[..SequenceLength(b[0])]) as char)
  }

  /** Strict decoding: the whole of `b`, or nothing. */
  function DecodeUtf8(b: seq<byte>): (r: Option<string>) {
    if b == [] then Some([])
    else match DecodeChar(b)
      case None => None
      case Some(c) => match DecodeUtf8(b[SequenceLength(b[0])..])
        case None => None
        case Some(rest) => Some([c] + rest)
  }

  /** Decoding with replacement: each maximal ill-formed run becomes one U+FFFD. */
  function DecodeUtf8Lossy(b: seq<byte>): string {
    if b == [] then []
    else match DecodeChar(b)
      case Some(c) => [c] + DecodeUtf8Lossy(b[SequenceLength(b[0])..])
      case None => [REPLACEMENT] + DecodeUtf8Lossy(b[if ValidPrefix(b) == 0 then 1 else ValidPrefix(b)..])
  }

  lemma PayloadOfEncoded(c: char)
    ensures Payload(EncodeChar(c)) == c as int
  {
  }

  lemma EncodedIsValid(c: char, rest: seq<byte>)
    ensures var (e, b) := (EncodeChar(c), EncodeChar(c) + rest);
            SequenceLength(e[0]) == |e| && |e| <= ValidPrefix(b)
  {
    var (e, b) := (EncodeChar(c), EncodeChar(c) + rest);
    assert forall i :: 0 <= i < |e| ==> b[i] == e[i];
  }

  lemma DecodeEncodeChar(c: char, rest: seq<byte>)
    ensures DecodeChar(EncodeChar(c) + rest) == Some(c)
    ensures SequenceLength(EncodeChar(c)[0]) == |EncodeChar(c)|
  {
    EncodedIsValid(c, rest);
    PayloadOfEncoded(c);
    var e := EncodeChar(c);
    hide EncodeChar;
    hide Payload;
    hide ValidPrefix;
    hide SequenceLength;
    assert (e + rest)[..|e|] == e;
  }

  lemma EncodeDecodeChar(b: seq<byte>)
    requires DecodeChar(b).Some?
    ensures b[..SequenceLength(b[0])] == EncodeChar(DecodeChar(b).value)
  {
    var n := SequenceLength(b[0]);
    var p := b[..n];
    assert Payload(p) == DecodeChar(b).value as int;
    var q := (b[0] as int - LeadBase(n)) * 0x40;
    if n == 3 {
      assert Payload(p) / 0x40 == q + Six(b[1]);
    } else if n == 4 {
      assert Payload(p) / 0x40 == (q + Six(b[1])) * 0x40 + Six(b[2]);
      assert Payload(p) / 0x40 / 0x40 == q + Six(b[1]);
    }
  }

  function LeadBase(n: nat): int {
    if n == 1 then 0 else if n == 2 then 0xC0 else if n == 3 then 0xE0 else 0xF0
  }

  /** Encoding loses nothing, for the strict and for the replacing decoder. */
  lemma {:induction false} DecodeEncodeUtf8(s: string)
    ensures DecodeUtf8(EncodeUtf8(s)) == Some(s)
    ensures DecodeUtf8Lossy(EncodeUtf8(s)) == s
  {
    if s != [] {
      var b := EncodeUtf8(s);
      DecodeEncodeChar(s[0], EncodeUtf8(s[1..]));
      assert b[|EncodeChar(s[0])|..] == EncodeUtf8(s[1..]);
      DecodeEncodeUtf8(s[1..]);
      assert [s[0]] + s[1..] == s;
    }
  }

  /** The strict decoder accepts exactly the encodings: no overlong form, no surrogate. */
  lemma {:induction false} EncodeDecodeUtf8(b: seq<byte>)
    requires DecodeUtf8(b).Some?
    ensures EncodeUtf8(DecodeUtf8(b).value) == b
  {
    if b != [] {
      var n := SequenceLength(b[0]);
      EncodeDecodeChar(b);
      EncodeDecodeUtf8(b[n..]);
      var s := DecodeUtf8(b).value;
      assert s[1..] == DecodeUtf8(b[n..]).value;
      assert b == b[..n] + b[n..];
    }
  }

  // ---------- Which bytes: the digits of the scalar value, in its order ----------

  function Pow64(n: nat): (p: nat)
    ensures p > 0
  {
    if n == 0 then 1 else 0x40 * Pow64(n - 1)
  }

  lemma Pow64Values()
    ensures Pow64(1) == 0x40 && Pow64(2) == 0x1000 && Pow64(3) == 0x4_0000
  {
  }

  /** The first byte marks the length and holds the highest digit in base 64; each later one holds the next. */
  lemma EncodedDigits(c: char)
    ensures var (v, e) := (c as int, EncodeChar(c));
            |e| == (if v < 0x80 then 1 else if v < 0x800 then 2 else if v < 0x1_0000 then 3 else 4) &&
            e[0] == LeadBase(|e|) + v / Pow64(|e| - 1) &&
            forall i :: 0 < i < |e| ==> e[i] == 0x80 + v / Pow64(|e| - 1 - i) % 0x40
  {
    Pow64Values();
    var v := c as int;
    assert v / 0x40 / 0x40 == v / 0x1000;
    assert v / 0x40 / 0x40 / 0x40 == v / 0x4_0000;
  }

  /** `a` comes first in a dictionary over bytes. */
  ghost predicate BytesBefore(a: seq<byte>, b: seq<byte>) { exists i: nat :: BytesDifferAt(a, b, i) }

  ghost predicate BytesDifferAt(a: seq<byte>, b: seq<byte>, i: nat) {
    i <= |a| && i < |b| && a[..i] == b[..i] && (i == |a| || a[i] < b[i])
  }

  /** `a` comes first in a dictionary over characters. */
  ghost predicate CharsBefore(a: string, b: string) { exists i: nat :: CharsDifferAt(a, b, i) }

  ghost predicate CharsDifferAt(a: string, b: string, i: nat) {
    i <= |a| && i < |b| && a[..i] == b[..i] && (i == |a| || a[i] < b[i])
  }

  lemma LongerLater(c: char, d: char)
    requires c < d && |EncodeChar(c)| != |EncodeChar(d)|
    ensures EncodeChar(c)[0] < EncodeChar(d)[0]
  {
  }

  lemma CharOrder(c: char, d: char) returns (i: nat)
    requires c < d
    ensures i < |EncodeChar(c)| && BytesDifferAt(EncodeChar(c), EncodeChar(d), i)
  {
    var (a, b) := (EncodeChar(c), EncodeChar(d));
    if |a| != |b| {
      LongerLater(c, d);
      i := 0;
    } else {
      i := if a[0] != b[0] then 0 else if a[1] != b[1] then 1 else if a[2] != b[2] then 2 else 3;
    }
  }

  lemma {:induction false} SharedStart(p: string, s: string)
    ensures EncodeUtf8(p + s) == EncodeUtf8(p) + EncodeUtf8(s)
  {
    if p == [] {
      assert p + s == s;
    } else {
      assert (p + s)[1..] == p[1..] + s;
      SharedStart(p[1..], s);
    }
  }

  lemma BehindShared(p: seq<byte>, a: seq<byte>, b: seq<byte>, i: nat)
    requires BytesDifferAt(a, b, i)
    ensures BytesBefore(p + a, p + b)
  {
    var k := |p| + i;
    assert (p + a)[..k] == p + a[..i] && (p + b)[..k] == p + b[..i];
    assert BytesDifferAt(p + a, p + b, k);
  }

  lemma BeforeMore(a: seq<byte>, b: seq<byte>, i: nat, more: seq<byte>, other: seq<byte>)
    requires BytesDifferAt(a, b, i) && i < |a|
    ensures BytesDifferAt(a + more, b + other, i)
  {
    assert (a + more)[..i] == a[..i] && (b + other)[..i] == b[..i];
  }

  lemma {:induction false} EncodedBefore(s: string, t: string)
    requires CharsBefore(s, t)
    ensures BytesBefore(EncodeUtf8(s), EncodeUtf8(t))
  {
    var k: nat :| CharsDifferAt(s, t, k);
    var p := s[..k];
    SharedStart(p, s[k..]);
    SharedStart(p, t[k..]);
    assert s == p + s[k..] && t == p + t[k..];
    if k == |s| {
      assert BytesDifferAt([], EncodeUtf8(t[k..]), 0);
      BehindShared(EncodeUtf8(p), [], EncodeUtf8(t[k..]), 0);
    } else {
      var i := CharOrder(s[k], t[k]);
      hide EncodeChar;
      assert s[k..][1..] == s[k + 1..] && t[k..][1..] == t[k + 1..];
      BeforeMore(EncodeChar(s[k]), EncodeChar(t[k]), i, EncodeUtf8(s[k + 1..]), EncodeUtf8(t[k + 1..]));
      BehindShared(EncodeUtf8(p), EncodeUtf8(s[k..]), EncodeUtf8(t[k..]), i);
    }
  }

  lemma SharedAt(a: seq<byte>, b: seq<byte>, n: nat, i: nat)
    requires i < n <= |a| && n <= |b| && a[..n] == b[..n]
    ensures a[i] == b[i]
  {
    assert a[i] == a[..n][i] && b[i] == b[..n][i];
  }

  lemma BytesNotBoth(a: seq<byte>, b: seq<byte>)
    requires BytesBefore(a, b)
    ensures !BytesBefore(b, a)
  {
    var i: nat :| BytesDifferAt(a, b, i);
    forall j: nat ensures !BytesDifferAt(b, a, j) {
      if i < j <= |a| && j <= |b| && a[..j] == b[..j] { SharedAt(a, b, j, i); }
      if j < i { SharedAt(a, b, i, j); }
    }
  }

  /** Two texts are the same, or one of them comes first. */
  lemma {:induction false} CharsCompare(s: string, t: string)
    ensures s == t || CharsBefore(s, t) || CharsBefore(t, s)
  {
    if s == [] || t == [] {
      if t != [] { assert CharsDifferAt(s, t, 0); }
      if s != [] { assert CharsDifferAt(t, s, 0); }
    } else if s[0] != t[0] {
      assert CharsDifferAt(s, t, 0) || CharsDifferAt(t, s, 0);
    } else {
      CharsCompare(s[1..], t[1..]);
      assert s == [s[0]] + s[1..] && t == [t[0]] + t[1..];
      if CharsBefore(s[1..], t[1..]) {
        FirstShared(s, t);
      } else if CharsBefore(t[1..], s[1..]) {
        FirstShared(t, s);
      }
    }
  }

  lemma FirstShared(s: string, t: string)
    requires s != [] && t != [] && s[0] == t[0] && CharsBefore(s[1..], t[1..])
    ensures CharsBefore(s, t)
  {
    var i: nat :| CharsDifferAt(s[1..], t[1..], i);
    assert s[..i + 1] == [s[0]] + s[1..][..i] && t[..i + 1] == [t[0]] + t[1..][..i];
    assert CharsDifferAt(s, t, i + 1);
  }

  /** The order of the bytes is the order of the characters (section 1 of RFC 3629): with `EncodeDecodeUtf8`, which says
    * what the encodings are all together, this leaves one encoding for each text.
    */
  lemma {:induction false} Utf8KeepsOrder(s: string, t: string)
    ensures BytesBefore(EncodeUtf8(s), EncodeUtf8(t)) <==> CharsBefore(s, t)
  {
    CharsCompare(s, t);
    hide EncodeUtf8;
    hide CharsBefore;
    hide BytesBefore;
    if CharsBefore(s, t) { EncodedBefore(s, t); }
    if CharsBefore(t, s) {
      EncodedBefore(t, s);
      BytesNotBoth(EncodeUtf8(t), EncodeUtf8(s));
    }
    if s == t && BytesBefore(EncodeUtf8(s), EncodeUtf8(t)) { BytesNotBoth(EncodeUtf8(s), EncodeUtf8(t)); }
  }

  // ---------- What replaces ill-formed bytes ----------

  /** Replacing never hides an error: it decodes as the strict decoder does, or shows a U+FFFD. */
  lemma {:induction false} LossyIsStrict(b: seq<byte>)
    ensures match DecodeUtf8(b)
            case Some(s) => DecodeUtf8Lossy(b) == s
            case None => REPLACEMENT in DecodeUtf8Lossy(b)
  {
    if b != [] && DecodeChar(b).Some? {
      LossyIsStrict(b[SequenceLength(b[0])..]);
    }
  }

  /** A sequence cut short, before anything that cannot continue it, becomes one U+FFFD and not one for each byte. */
  lemma {:induction false} CutSequence(c: char, n: nat, rest: seq<byte>)
    requires 0 < n < |EncodeChar(c)| && (rest == [] || !IsTail(rest[0]))
    ensures DecodeUtf8Lossy(EncodeChar(c)[..n] + rest) == [REPLACEMENT] + DecodeUtf8Lossy(rest)
  {
    var (e, b) := (EncodeChar(c), EncodeChar(c)[..n] + rest);
    EncodedIsValid(c, []);
    assert e + [] == e;
    assert forall i :: 0 <= i < n ==> b[i] == e[i];
    assert forall i :: n <= i < |b| ==> b[i] == rest[i - n];
    assert b[n..] == rest;
    CutIsCut(e, b, n);
  }

  lemma CutIsCut(e: seq<byte>, b: seq<byte>, n: nat)
    requires 0 < n < |e| && SequenceLength(e[0]) == |e| <= ValidPrefix(e) && n <= |b|
    requires (forall i :: 0 <= i < n ==> b[i] == e[i]) && (n < |b| ==> !IsTail(b[n]))
    ensures ValidPrefix(b) == n && DecodeChar(b) == None
  {
  }

  /** A byte that starts nothing becomes one U+FFFD. */
  lemma {:induction false} LoneByte(b: seq<byte>)
    requires b != [] && SequenceLength(b[0]) == 0
    ensures DecodeUtf8Lossy(b) == [REPLACEMENT] + DecodeUtf8Lossy(b[1..])
  {
  }

  // ---------- UTF-16 ----------

  predicate IsHigh(u: CodeUnit) { 0xD800 <= u < 0xDC00 }
  predicate IsLow(u: CodeUnit) { 0xDC00 <= u < 0xE000 }

  /** Every surrogate is half of a pair: no high one without a low one after it, and none the other way. */
  ghost predicate WellFormedUtf16(s: seq<CodeUnit>) {
    (forall i :: 0 <= i < |s| && IsHigh(s[i]) ==> i + 1 < |s| && IsLow(s[i + 1])) &&
    (forall i :: 0 <= i < |s| && IsLow(s[i]) ==> 0 < i && IsHigh(s[i - 1]))
  }

  /** How many code units the first scalar value of `s` takes. */
  function FirstWidth(s: seq<CodeUnit>): nat
    requires s != []
  {
    if |s| > 1 && IsHigh(s[0]) && IsLow(s[1]) then 2 else 1
  }

  /** The first scalar value of `s`; a lone surrogate reads as U+FFFD. */
  function FirstScalar(s: seq<CodeUnit>): char
    requires s != []
  {
    if FirstWidth(s) == 2 then (0x1_0000 + (s[0] as int - 0xD800) * 0x400 + (s[1] as int - 0xDC00)) as char
    else if IsHigh(s[0]) || IsLow(s[0]) then REPLACEMENT
    else s[0] as char
  }

  /** A JavaScript string as scalar values, the way the Encoding Standard converts it. */
  function Scalars(s: seq<CodeUnit>): string {
    if s == [] then [] else [FirstScalar(s)] + Scalars(s[FirstWidth(s)..])
  }

  function UnitsOfChar(c: char): (u: seq<CodeUnit>)
    ensures 1 <= |u| <= 2
  {
    var v := c as int;
    if v < 0x1_0000 then [v] else [0xD800 + (v - 0x1_0000) / 0x400, 0xDC00 + (v - 0x1_0000) % 0x400]
  }

  /** The JavaScript string that holds the given scalar values. */
  function EncodeUtf16(s: string): seq<CodeUnit> {
    if s == [] then [] else UnitsOfChar(s[0]) + EncodeUtf16(s[1..])
  }

  /** The pairs in numbers: the ten high bits of what is above U+FFFF in the first unit, the ten low ones in the second;
    * a character up to U+FFFF is one unit.
    */
  lemma {:induction false} SurrogatePair(high: nat, low: nat, rest: string)
    requires high < 0x400 && low < 0x400
    ensures var c := (0x1_0000 + 0x400 * high + low) as char;
            EncodeUtf16([c] + rest) == [0xD800 + high, 0xDC00 + low] + EncodeUtf16(rest)
  {
    var c := (0x1_0000 + 0x400 * high + low) as char;
    assert (0x400 * high + low) / 0x400 == high && (0x400 * high + low) % 0x400 == low;
    assert ([c] + rest)[1..] == rest;
  }

  lemma {:induction false} SingleUnit(c: char, rest: string)
    requires c as int < 0x1_0000
    ensures EncodeUtf16([c] + rest) == [c as CodeUnit] + EncodeUtf16(rest)
  {
    assert ([c] + rest)[1..] == rest;
  }

  lemma WellFormedTail(s: seq<CodeUnit>)
    requires s != []
    requires FirstWidth(s) == 2 || !(IsHigh(s[0]) || IsLow(s[0]))
    ensures WellFormedUtf16(s) <==> WellFormedUtf16(s[FirstWidth(s)..])
  {
  }

  lemma UnitsOfFirst(s: seq<CodeUnit>)
    requires s != []
    ensures UnitsOfChar(FirstScalar(s)) == s[..FirstWidth(s)] <==>
            FirstWidth(s) == 2 || !(IsHigh(s[0]) || IsLow(s[0]))
  {
  }

  /** A JavaScript string survives the trip through scalar values iff it holds no lone surrogate. */
  lemma {:induction false} ScalarsFaithful(s: seq<CodeUnit>)
    ensures EncodeUtf16(Scalars(s)) == s <==> WellFormedUtf16(s)
  {
    if s != [] {
      var n := FirstWidth(s);
      var t := s[n..];
      var head := UnitsOfChar(FirstScalar(s));
      assert Scalars(s)[1..] == Scalars(t);
      ScalarsFaithful(t);
      UnitsOfFirst(s);
      if FirstWidth(s) == 2 || !(IsHigh(s[0]) || IsLow(s[0])) {
        WellFormedTail(s);
        assert s == s[..n] + t;
        assert (head + EncodeUtf16(Scalars(t)))[n..] == EncodeUtf16(Scalars(t));
      } else {
        assert EncodeUtf16(Scalars(s))[0] == 0xFFFD;
        assert !WellFormedUtf16(s);
      }
    }
  }

  lemma FirstOfUnits(c: char, rest: seq<CodeUnit>)
    ensures var s := UnitsOfChar(c) + rest;
            FirstWidth(s) == |UnitsOfChar(c)| && FirstScalar(s) == c && s[FirstWidth(s)..] == rest
  {
  }

  /** Every text is read back from its code units. */
  lemma {:induction false} ScalarsOfUnits(t: string)
    ensures Scalars(EncodeUtf16(t)) == t
  {
    if t != "" {
      FirstOfUnits(t[0], EncodeUtf16(t[1..]));
      ScalarsOfUnits(t[1..]);
      assert t == [t[0]] + t[1..];
    }
  }

  /** Half a pair reads as U+FFFD, and what follows it as if it were not there. */
  lemma {:induction false} LoneSurrogate(u: CodeUnit, rest: seq<CodeUnit>)
    requires IsLow(u) || (IsHigh(u) && (rest == [] || !IsLow(rest[0])))
    ensures Scalars([u] + rest) == ['\U{FFFD}'] + Scalars(rest)
  {
    assert ([u] + rest)[1..] == rest;
  }
}
