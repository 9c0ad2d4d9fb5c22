/** Percent-encoding and query strings, as `encodeURIComponent` and `URLSearchParams` treat them. */
module UrlParams {
  import opened Options
  import opened Text
  import opened Unicode

  // ---------- Percent-encoding (section 2.1 of RFC 3986) ----------

  const HEX_DIGITS := "0123456789ABCDEF"

  /** What `encodeURIComponent` leaves alone. */
  predicate IsUnescaped(c: char) {
    'A' <= c <= 'Z' || 'a' <= c <= 'z' || '0' <= c <= '9' || c in "-_.!~*'()"
  }

  function EscapeByte(b: byte): string { ['%', HEX_DIGITS[b / 16], HEX_DIGITS[b % 16]] }

  function EscapeBytes(bs: seq<byte>): string {
    if bs == [] then "" else EscapeByte(bs[0]) + EscapeBytes(bs[1..])
  }

  function EncodeComponent(s: string): string {
    if s == "" then ""
    else (if IsUnescaped(s[0]) then [s[0]] else EscapeBytes(EncodeChar(s[0]))) + EncodeComponent(s[1..])
  }

  function HexValue(c: char): Option<nat> {
    if '0' <= c <= '9' then Some(c as int - '0' as int)
    else if 'A' <= c <= 'F' then Some(c as int - 'A' as int + 10)
    else if 'a' <= c <= 'f' then Some(c as int - 'a' as int + 10)
    else None
  }

  /** The byte an escape at the start of `s` stands for. */
  function EscapedByte(s: string): Option<int> {
    if |s| >= 3 && s[0] == '%' && HexValue(s[1]).Some? && HexValue(s[2]).Some?
    then Some(HexValue(s[1]).value * 16 + HexValue(s[2]).value) else None
  }

  /** A form-encoded text as bytes: escapes decoded, '+' a space, anything else itself. */
  function FormBytes(s: string): seq<byte> {
    if s == "" then []
    else if EscapedByte(s).Some? then [EscapedByte(s).value] + FormBytes(s[3..])
    else EncodeChar(if s[0] == '+' then ' ' else s[0]) + FormBytes(s[1..])
  }

  function DecodeComponent(s: string): string { DecodeUtf8Lossy(FormBytes(s)) }

  // ---------- Query strings ----------

  type Params = seq<(string, string)>

  function ParsePair(piece: string): (string, string) {
    var i := IndexOf(piece, '=');
    (DecodeComponent(piece[..i]), DecodeComponent(if i < |piece| then piece[i + 1..] else ""))
  }

  /** What stands before the first '&', if anything does. */
  function FirstPair(q: string): Params {
    var i := IndexOf(q, '&');
    if i == 0 then [] else [ParsePair(q[..i])]
  }

  /** What follows the first '&'. */
  function AfterFirst(q: string): (rest: string)
    ensures q != "" ==> |rest| < |q|
  {
    var i := IndexOf(q, '&');
    if i < |q| then q[i + 1..] else ""
  }

  /** Pieces between '&', empty ones skipped. */
  function ParsePairs(q: string): Params
    decreases |q|
  {
    if q == "" then [] else FirstPair(q) + ParsePairs(AfterFirst(q))
  }

  /** `new URLSearchParams(q)`. */
  function ParseQuery(q: string): Params {
    if q != "" && q[0] == '?' then ParsePairs(q[1..]) else ParsePairs(q)
  }

  /** `params.get(name)`. */
  function Get(params: Params, name: string): Option<string> {
    if params == [] then None
    else if params[0].0 == name then Some(params[0].1) else Get(params[1..], name)
  }

  // ---------- Encoding then decoding ----------

  lemma HexDigitValue(n: nat)
    requires n < 16
    ensures HexValue(HEX_DIGITS[n]) == Some(n)
  {
  }

  lemma {:induction false} EscapeByteRoundTrip(b: byte, rest: string)
    ensures FormBytes(EscapeByte(b) + rest) == [b] + FormBytes(rest)
  {
    var s := EscapeByte(b) + rest;
    HexDigitValue(b / 16);
    HexDigitValue(b % 16);
    assert s[3..] == rest;
  }

  lemma {:induction false} EscapeBytesRoundTrip(bs: seq<byte>, rest: string)
    ensures FormBytes(EscapeBytes(bs) + rest) == bs + FormBytes(rest)
  {
    if bs == [] {
      assert EscapeBytes(bs) + rest == rest && bs + FormBytes(rest) == FormBytes(rest);
    } else {
      hide FormBytes;
      hide EscapeByte;
      var (first, others) := (EscapeByte(bs[0]), EscapeBytes(bs[1..]));
      EscapeByteRoundTrip(bs[0], others + rest);
      EscapeBytesRoundTrip(bs[1..], rest);
      Associative(first, others, rest);
      Associative([bs[0]], bs[1..], FormBytes(rest));
      assert bs == [bs[0]] + bs[1..];
    }
  }

  lemma {:induction false} FormBytesOfEncoded(s: string)
    ensures FormBytes(EncodeComponent(s)) == EncodeUtf8(s)
  {
    if s != "" {
      FormBytesOfEncoded(s[1..]);
      var tail := EncodeComponent(s[1..]);
      if IsUnescaped(s[0]) {
        var t := [s[0]] + tail;
        assert EncodeComponent(s) == t && t[1..] == tail && EscapedByte(t) == None;
      } else {
        EscapeBytesRoundTrip(EncodeChar(s[0]), tail);
      }
    }
  }

  /** Every text survives percent-encoding, whatever it contains. */
  lemma {:induction false} DecodeEncodeComponent(s: string)
    ensures DecodeComponent(EncodeComponent(s)) == s
  {
    FormBytesOfEncoded(s);
    DecodeEncodeUtf8(s);
  }

  /** A text decoding leaves alone: no escape, no '+' and no delimiter but '='. */
  ghost predicate PlainValue(s: string) { forall c <- s :: c !in "&?+%" }

  lemma {:induction false} PlainDecodes(s: string)
    requires PlainValue(s)
    ensures FormBytes(s) == EncodeUtf8(s) && DecodeComponent(s) == s
  {
    if s != "" {
      assert s[0] in s && forall c <- s[1..] :: c in s;
      PlainDecodes(s[1..]);
    }
    DecodeEncodeUtf8(s);
  }

  /** Percent-encoded text has no delimiter in it. */
  predicate IsEncodedChar(c: char) { IsUnescaped(c) || c == '%' }

  lemma {:induction false} EscapedChars(bs: seq<byte>)
    ensures forall c <- EscapeBytes(bs) :: IsEncodedChar(c)
  {
    if bs != [] {
      EscapedChars(bs[1..]);
      assert forall n | 0 <= n < 16 :: IsUnescaped(HEX_DIGITS[n]);
    }
  }

  lemma {:induction false} EncodedChars(s: string)
    ensures forall c <- EncodeComponent(s) :: IsEncodedChar(c)
  {
    if s != "" {
      EncodedChars(s[1..]);
      EscapedChars(EncodeChar(s[0]));
    }
  }

  lemma SplitPair(name: string, value: string)
    requires '=' !in name
    ensures ParsePair(name + "=" + value) == (DecodeComponent(name), DecodeComponent(value))
  {
    hide DecodeComponent;
    var piece := name + "=" + value;
    assert piece == name + ("=" + value);
    IndexOfSuffix(name, '=', "=" + value);
    hide IndexOf;
    assert piece[..|name|] == name && piece[|name| + 1..] == value;
  }

  /** One piece and what follows it. */
  lemma ParseFirstPiece(piece: string, rest: string)
    requires piece != "" && '&' !in piece && (rest == "" || rest[0] == '&')
    ensures ParsePairs(piece + rest) == [ParsePair(piece)] + if rest == "" then [] else ParsePairs(rest[1..])
  {
    IndexOfSuffix(piece, '&', rest);
    CutAt(piece, rest);
    hide ParsePair;
    hide IndexOf;
    var q := piece + rest;
    assert FirstPair(q) == [ParsePair(piece)] && AfterFirst(q) == if rest == "" then "" else rest[1..];
    hide FirstPair;
    hide AfterFirst;
    assert ParsePairs(q) == FirstPair(q) + ParsePairs(AfterFirst(q));
    hide ParsePairs;
    NothingAfter();
  }

  lemma NothingAfter()
    ensures ParsePairs("") == []
  {
  }

  /** One `name=value` piece and what follows it. */
  lemma {:induction false} ParseFirstPair(name: string, value: string, rest: string)
    requires '&' !in name && '=' !in name && '&' !in value
    requires rest == "" || rest[0] == '&'
    ensures ParsePairs(name + "=" + value + rest) ==
            [(DecodeComponent(name), DecodeComponent(value))] + if rest == "" then [] else ParsePairs(rest[1..])
  {
    SplitPair(name, value);
    ParseFirstPiece(name + "=" + value, rest);
  }

  // ---------- Whole query strings ----------

  /** `name=value` pieces between '&'. */
  function Join(pairs: Params): string
    decreases |pairs|, 1
  {
    if pairs == [] then "" else pairs[0].0 + "=" + pairs[0].1 + JoinRest(pairs)
  }

  function DecodePairs(pairs: Params): Params {
    seq(|pairs|, i requires 0 <= i < |pairs| => (DecodeComponent(pairs[i].0), DecodeComponent(pairs[i].1)))
  }

  /** The pieces of a query cannot run into each other. */
  ghost predicate Separate(pairs: Params) {
    forall p <- pairs :: '&' !in p.0 && '=' !in p.0 && '&' !in p.1
  }

  /** What follows the first pair. */
  function JoinRest(pairs: Params): string
    requires pairs != []
    decreases |pairs|, 0
  {
    if |pairs| == 1 then "" else "&" + Join(pairs[1..])
  }

  lemma {:induction false} ParseJoinedPairs(pairs: Params)
    requires Separate(pairs)
    ensures ParsePairs(Join(pairs)) == DecodePairs(pairs)
  {
    if pairs != [] {
      hide DecodeComponent;
      hide ParsePairs;
      var rest := JoinRest(pairs);
      assert pairs[0] in pairs;
      JoinRestTail(pairs);
      assert Join(pairs) == pairs[0].0 + "=" + pairs[0].1 + rest;
      hide Join;
      ParseFirstPair(pairs[0].0, pairs[0].1, rest);
      ParseJoinedPairs(pairs[1..]);
      DecodeFirst(pairs);
    }
  }

  lemma {:induction false} JoinRestTail(pairs: Params)
    requires pairs != []
    ensures var rest := JoinRest(pairs);
            if |pairs| == 1 then rest == "" && pairs[1..] == []
              else rest != "" && rest[0] == '&' && rest[1..] == Join(pairs[1..])
  {
  }

  /** The first character of a joined text is that of its first name. */
  lemma {:induction false} JoinStarts(pairs: Params)
    requires pairs != [] && pairs[0].0 != ""
    ensures Join(pairs) != "" && Join(pairs)[0] == pairs[0].0[0]
  {
  }

  /** Without a leading '?' the whole text is the query. */
  lemma {:induction false} QueryOfPairs(q: string)
    requires q == "" || q[0] != '?'
    ensures ParseQuery(q) == ParsePairs(q)
  {
  }

  lemma DecodeFirst(pairs: Params)
    requires pairs != []
    ensures DecodePairs(pairs) == [(DecodeComponent(pairs[0].0), DecodeComponent(pairs[0].1))] + DecodePairs(pairs[1..])
  {
  }

  /** A query string of separate pairs parses to those pairs, decoded. */
  lemma {:induction false} QueryOfJoined(pairs: Params)
    requires Separate(pairs) && pairs != [] && pairs[0].0 != "" && pairs[0].0[0] != '?'
    ensures Join(pairs) != "" && ParseQuery(Join(pairs)) == DecodePairs(pairs)
  {
    JoinStarts(pairs);
    ParseJoinedPairs(pairs);
    hide DecodePairs;
    hide ParsePairs;
    hide Join;
    QueryOfPairs(Join(pairs));
  }

  /** Only the empty text decodes to nothing. */
  lemma DecodesToNothing(s: string)
    ensures DecodeComponent(s) == "" <==> s == ""
  {
    if s != "" { assert FormBytes(s) != []; }
  }

  // ---------- The rules, character by character ----------

  const CAPITALS := "ABCDEFGHIJKLMNOPQRSTUVWXYZ"
  const SMALL := "abcdefghijklmnopqrstuvwxyz"

  ghost predicate StandsForItself(c: char) { c in CAPITALS || c in SMALL || c in "0123456789" || c in "-_.!~*'()" }

  /** What stands for itself, and what its UTF-8 bytes stand for. */
  lemma {:induction false} EncodedOne(c: char, rest: string)
    ensures EncodeComponent([c] + rest) ==
            (if StandsForItself(c) then [c] else EscapeBytes(EncodeUtf8([c]))) + EncodeComponent(rest)
  {
    assert ([c] + rest)[1..] == rest;
    UnescapedAre(c);
    hide StandsForItself;
    hide EscapeBytes;
    hide EncodeChar;
    assert EncodeUtf8([c]) == EncodeChar(c) + EncodeUtf8([]);
    assert EncodeChar(c) + [] == EncodeChar(c);
  }

  lemma UnescapedAre(c: char)
    ensures IsUnescaped(c) <==> StandsForItself(c)
  {
    InCapitals(c);
    InSmall(c);
    InDigits(c);
    hide CAPITALS;
    hide SMALL;
  }

  lemma InCapitals(c: char)
    ensures 'A' <= c <= 'Z' <==> c in CAPITALS
  {
    if 'A' <= c <= 'Z' { assert CAPITALS[c as int - 'A' as int] == c; }
  }

  lemma InSmall(c: char)
    ensures 'a' <= c <= 'z' <==> c in SMALL
  {
    if 'a' <= c <= 'z' { assert SMALL[c as int - 'a' as int] == c; }
  }

  lemma InDigits(c: char)
    ensures '0' <= c <= '9' <==> c in "0123456789"
  {
    if '0' <= c <= '9' { assert "0123456789"[c as int - '0' as int] == c; }
  }

  /** An escape is `%` and the two digits of the byte in base 16, in capitals. */
  lemma EscapeIs(b: byte)
    ensures var (e, high, low) := (EscapeByte(b), b / 16, b % 16);
            |e| == 3 && e[0] == '%' &&
            e[1] as int == (if high < 10 then 48 + high else 55 + high) &&
            e[2] as int == (if low < 10 then 48 + low else 55 + low)
  {
  }

  /** Escapes are read in capitals and small letters. */
  lemma HexValues(n: nat)
    requires n < 16
    ensures HexValue("0123456789ABCDEF"[n]) == Some(n) && HexValue("0123456789abcdef"[n]) == Some(n)
  {
  }

  /** Form decoding: an escape is its byte, a `+` a blank, a `%` without two digits itself, and so is anything else. */
  lemma {:induction false} FormReads(c: char, rest: string)
    ensures FormBytes("+" + rest) == [0x20] + FormBytes(rest)
    ensures c != '%' && c != '+' ==> FormBytes([c] + rest) == EncodeUtf8([c]) + FormBytes(rest)
    ensures (|rest| < 2 || HexValue(rest[0]).None? || HexValue(rest[1]).None?) ==>
              FormBytes("%" + rest) == [0x25] + FormBytes(rest)
  {
    assert ("+" + rest)[1..] == rest && ("%" + rest)[1..] == rest && ([c] + rest)[1..] == rest;
    assert EncodeUtf8([c]) == EncodeChar(c) + EncodeUtf8([]);
    assert EncodeChar(c) + [] == EncodeChar(c);
  }

  lemma {:induction false} FormReadsEscape(high: char, low: char, rest: string)
    requires HexValue(high).Some? && HexValue(low).Some?
    ensures FormBytes(['%', high, low] + rest) == [16 * HexValue(high).value + HexValue(low).value] + FormBytes(rest)
  {
    assert (['%', high, low] + rest)[3..] == rest;
  }

  /** A leading `?` is dropped, an empty piece is skipped, and a piece without `=` has an empty value. */
  lemma {:induction false} OddPieces(q: string, name: string)
    ensures ParseQuery("?" + q) == ParsePairs(q) && ParsePairs("&" + q) == ParsePairs(q)
    ensures '=' !in name ==> ParsePair(name) == (DecodeComponent(name), "")
  {
    assert ("?" + q)[1..] == q && ("&" + q)[1..] == q;
    assert IndexOf("&" + q, '&') == 0;
    hide DecodeComponent;
    if '=' !in name {
      IndexOfSuffix(name, '=', "");
      assert name + "" == name && name[..|name|] == name;
    }
    DecodesToNothing("");
  }

  /** Of several parameters with one name the first counts. */
  lemma {:induction false} GetFirst(params: Params, name: string, i: nat)
    requires i <= |params| && (i < |params| ==> params[i].0 == name) && forall j :: 0 <= j < i ==> params[j].0 != name
    ensures Get(params, name) == if i < |params| then Some(params[i].1) else None
  {
    if i > 0 {
      assert params[0].0 != name;
      GetFirst(params[1..], name, i - 1);
    }
  }
}
