/** What decoding gives back of an encoded BIP 21 URI. */
module Bip21RoundTrip {
  import opened Options
  import opened Text
  import opened Decimals
  import opened Numbers
  import opened UrlParams
  import opened Bip21
  import ArkUri

  // ---------- Fields ----------

  /** What a field may be made of so that it ends where the next parameter starts. */
  predicate IsFieldChar(c: char) { c !in "&?" && !IsWhite(c) }

  ghost predicate Clean(s: string) { forall c <- s :: IsFieldChar(c) }

  /** A name of lower-case letters. */
  ghost predicate IsName(s: string) { s != "" && forall c <- s :: 'a' <= c <= 'z' }

  function Piece(name: string, value: string): Params { if value == "" then [] else [(name, value)] }

  /** The parameters of a payment URI. */
  function Pieces(ark: string, lightning: string, amount: string): Params {
    Piece("ark", ark) + Piece("lightning", lightning) + Piece("amount", amount)
  }

  lemma Names()
    ensures IsName("ark") && IsName("lightning") && IsName("amount") && IsName("assetid")
    ensures "ark" != "lightning" && "ark" != "amount" && "lightning" != "amount"
    ensures "assetid" != "ark" && "assetid" != "lightning" && "assetid" != "amount"
  {
  }

  lemma NameLower(s: string)
    requires IsName(s)
    ensures Lower(s) == s
  {
    assert forall i :: 0 <= i < |s| ==> s[i] in s;
  }

  lemma NameDecodes(name: string)
    requires IsName(name)
    ensures DecodeComponent(name) == name
  {
    PlainDecodes(name);
  }

  lemma {:induction false} GetParamAppend(a: Params, b: Params, name: string)
    ensures GetParam(a + b, name) == if GetParam(a, name).Some? then GetParam(a, name) else GetParam(b, name)
  {
    if a == [] {
      assert a + b == b;
    } else {
      assert (a + b)[1..] == a[1..] + b;
      GetParamAppend(a[1..], b, name);
    }
  }

  lemma {:induction false} GetSingle(name: string, value: string, wanted: string)
    requires IsName(name)
    ensures GetParam([(name, value)], wanted) == if name == wanted then Some(value) else None
  {
    NameLower(name);
    hide Lower;
    assert [(name, value)][1..] == [];
  }

  lemma {:induction false} GetPiece(name: string, value: string, wanted: string)
    requires IsName(name)
    ensures GetParam(Piece(name, value), wanted) == if name == wanted then Truthy(value) else None
  {
    GetSingle(name, value, wanted);
  }

  lemma {:induction false} GetAmongPieces(ark: string, lightning: string, amount: string, wanted: string)
    ensures GetParam(Pieces(ark, lightning, amount), wanted) ==
            if wanted == "ark" then Truthy(ark)
            else if wanted == "lightning" then Truthy(lightning)
            else if wanted == "amount" then Truthy(amount)
            else None
  {
    Names();
    hide IsName;
    hide GetParam;
    hide Piece;
    GetParamAppend(Piece("ark", ark) + Piece("lightning", lightning), Piece("amount", amount), wanted);
    GetParamAppend(Piece("ark", ark), Piece("lightning", lightning), wanted);
    GetPiece("ark", ark, wanted);
    GetPiece("lightning", lightning, wanted);
    GetPiece("amount", amount, wanted);
  }

  // ---------- The encoded text ----------

  /** Everything after the scheme. */
  function UriTail(address: string, pairs: Params): string { address + if pairs == [] then "" else "?" + Join(pairs) }

  /** Every pair followed by '&'. */
  function Closed(pairs: Params): string {
    if pairs == [] then "" else ClosedPair(pairs[0]) + Closed(pairs[1..])
  }

  function ClosedPair(p: (string, string)): string { p.0 + "=" + p.1 + "&" }

  lemma {:induction false} ClosedAppend(a: Params, b: Params)
    ensures Closed(a + b) == Closed(a) + Closed(b)
  {
    hide ClosedPair;
    if a == [] {
      assert a + b == b;
    } else {
      assert (a + b)[1..] == a[1..] + b;
      ClosedAppend(a[1..], b);
      Associative(ClosedPair(a[0]), Closed(a[1..]), Closed(b));
    }
  }

  lemma {:induction false} JoinSnoc(pairs: Params, name: string, value: string)
    ensures Join(pairs + [(name, value)]) == Closed(pairs) + (name + "=" + value)
  {
    var all := pairs + [(name, value)];
    if pairs == [] {
      assert all == [(name, value)];
      assert Join(all) == name + "=" + value + "";
    } else {
      assert all[1..] == pairs[1..] + [(name, value)];
      JoinSnoc(pairs[1..], name, value);
      hide Join;
      JoinFirst(all);
      Associative(ClosedPair(pairs[0]), Closed(pairs[1..]), name + "=" + value);
    }
  }

  lemma {:induction false} JoinFirst(pairs: Params)
    requires |pairs| > 1
    ensures Join(pairs) == ClosedPair(pairs[0]) + Join(pairs[1..])
  {
    var (p, rest) := (pairs[0], Join(pairs[1..]));
    assert Join(pairs) == p.0 + "=" + p.1 + ("&" + rest);
    hide Join;
    Associative(p.0 + "=" + p.1, "&", rest);
  }

  /** The '&' after the last pair is the one the encoder cuts off. */
  lemma {:induction false} ClosedIsJoined(pairs: Params)
    requires pairs != []
    ensures Closed(pairs) == Join(pairs) + "&"
  {
    var (init, last) := (pairs[..|pairs| - 1], pairs[|pairs| - 1]);
    assert pairs == init + [last] && last == (last.0, last.1);
    JoinSnoc(init, last.0, last.1);
    ClosedAppend(init, [last]);
    assert Closed([last]) == ClosedPair(last) + "";
    Associative(Closed(init), last.0 + "=" + last.1, "&");
  }

  /** An amount is digits, a sign and a dot. */
  lemma DecimalTextClean(negative: bool, integer: string, dot: bool, fraction: string)
    requires AllDigits(integer) && AllDigits(fraction) && integer != "" && (!dot ==> fraction == "")
    ensures var t := DecimalText(negative, integer, dot, fraction);
            Clean(t) && PlainValue(t) && t != ""
  {
  }

  lemma AmountClean(cents: int, decimals: Number)
    ensures var t := CentsToUnits(cents, decimals);
            Clean(t) && PlainValue(t) && t != "" && DecodeComponent(t) == t
  {
    hide Clean;
    hide PlainValue;
    hide DecodeComponent;
    hide CentsToUnits;
    var integer, fraction := CentsParts(cents, decimals);
    DecimalTextClean(cents < 0, integer, fraction != "", fraction);
    PlainDecodes(CentsToUnits(cents, decimals));
  }

  lemma PieceText(name: string, value: string)
    ensures Closed(Piece(name, value)) == if value == "" then "" else name + "=" + value + "&"
  {
  }

  /** The amount each number of satoshis is written as; none for 0. */
  function AmountText(sats: int): string { if sats == 0 then "" else BitcoinText(sats) }

  function Lightning(invoice: string, lnurl: string): string { if invoice != "" then invoice else lnurl }

  lemma Literals(s: string)
    ensures "ark=" + s + "&" == "ark" + "=" + s + "&" && "lightning=" + s + "&" == "lightning" + "=" + s + "&"
    ensures "amount=" + s == "amount" + "=" + s
  {
  }

  lemma Untrailing(s: string, c: char)
    requires c in "&?"
    ensures WithoutTrailing(s + [c]) == s
  {
  }

  lemma Unchanged(s: string)
    requires s != "" && IsFieldChar(s[|s| - 1])
    ensures WithoutTrailing(s) == s
  {
  }

  /** The text before the last cut. */
  lemma EncodeOfClosed(address: string, ark: string, invoice: string, sats: int, lnurl: string)
    ensures var l := Lightning(invoice, lnurl);
            Encode(address, ark, invoice, sats, lnurl) ==
            WithoutTrailing("bitcoin:" + address + "?" + Closed(Piece("ark", ark)) + Closed(Piece("lightning", l)) +
                            if sats == 0 then "" else "amount" + "=" + BitcoinText(sats))
  {
    PieceText("ark", ark);
    PieceText("lightning", Lightning(invoice, lnurl));
    Literals(ark);
    Literals(Lightning(invoice, lnurl));
    Literals(BitcoinText(sats));
    hide Closed;
    hide BitcoinText;
    hide WithoutTrailing;
  }

  /** Joining what the encoder concatenates. */
  lemma TailText(address: string, a: string, b: string, c: string)
    ensures "bitcoin:" + address + "?" + a + b + c == "bitcoin:" + (address + ("?" + (a + b + c)))
  {
  }

  lemma LastOf(s: string, t: string)
    requires t != ""
    ensures s + t != "" && (s + t)[|s + t| - 1] == t[|t| - 1]
  {
  }

  lemma LastClean(s: string, t: string)
    requires Clean(t) && t != ""
    ensures WithoutTrailing(s + t) == s + t
  {
    LastOf(s, t);
    assert t[|t| - 1] in t;
    Unchanged(s + t);
  }

  /** The encoder writes the pieces it has, joined: nothing after the scheme but the address when there are none. */
  lemma EncodeText(address: string, ark: string, invoice: string, sats: int, lnurl: string)
    ensures Encode(address, ark, invoice, sats, lnurl) ==
            "bitcoin:" + UriTail(address, Pieces(ark, Lightning(invoice, lnurl), AmountText(sats)))
  {
    var (a, l) := (Piece("ark", ark), Piece("lightning", Lightning(invoice, lnurl)));
    EncodeOfClosed(address, ark, invoice, sats, lnurl);
    ClosedAppend(a, l);
    hide Encode;
    hide Closed;
    hide Join;
    hide Lightning;
    hide CentsToUnits;
    hide WithoutTrailing;
    var pairs := Pieces(ark, Lightning(invoice, lnurl), AmountText(sats));
    if sats != 0 {
      AmountClean(sats, BITCOIN_DECIMALS);
      EncodeWithAmount(address, a, l, BitcoinText(sats));
    } else {
      assert pairs == a + l;
      hide Piece;
      EncodeWithoutAmount(address, a, l);
    }
  }

  lemma {:induction false} EncodeWithAmount(address: string, a: Params, l: Params, amount: string)
    requires Clean(amount) && amount != ""
    ensures Piece("amount", amount) == [("amount", amount)]
    ensures WithoutTrailing("bitcoin:" + address + "?" + Closed(a) + Closed(l) + ("amount" + "=" + amount)) ==
            "bitcoin:" + UriTail(address, a + l + [("amount", amount)])
  {
    hide Closed;
    hide Join;
    hide Clean;
    hide WithoutTrailing;
    ClosedAppend(a, l);
    JoinSnoc(a + l, "amount", amount);
    TailText(address, Closed(a), Closed(l), "amount" + "=" + amount);
    var s := "bitcoin:" + address + "?" + Closed(a) + Closed(l);
    Associative(s, "amount" + "=", amount);
    LastClean(s + ("amount" + "="), amount);
  }

  lemma {:induction false} EncodeWithoutAmount(address: string, a: Params, l: Params)
    ensures WithoutTrailing("bitcoin:" + address + "?" + Closed(a) + Closed(l) + "") ==
            "bitcoin:" + UriTail(address, a + l)
  {
    hide Join;
    hide WithoutTrailing;
    ClosedAppend(a, l);
    TailText(address, Closed(a), Closed(l), "");
    var joined := Closed(a) + Closed(l);
    assert joined + "" == joined;
    if a + l == [] {
      hide Closed;
      Associative("bitcoin:", address, "?");
      assert "?" + "" == "?" && address + "" == address;
      assert Closed(a) + Closed(l) == "";
      Untrailing("bitcoin:" + address, '?');
    } else {
      hide Closed;
      ClosedIsJoined(a + l);
      var j := Join(a + l);
      assert "bitcoin:" + (address + ("?" + (j + "&"))) == "bitcoin:" + (address + ("?" + j)) + "&";
      Untrailing("bitcoin:" + (address + ("?" + j)), '&');
    }
  }

  // ---------- Decoding a text of that form ----------

  /** Neither '?' nor a blank. */
  predicate IsAddressChar(c: char) { c != '?' && !IsWhite(c) }

  ghost predicate CleanAddress(s: string) { forall c <- s :: IsAddressChar(c) }

  ghost predicate CleanPairs(pairs: Params) { forall p <- pairs :: IsName(p.0) && Clean(p.1) }

  lemma PairChars(name: string, value: string)
    requires IsName(name) && Clean(value)
    ensures CleanAddress(name + "=" + value)
  {
  }

  lemma {:induction false} JoinChars(pairs: Params)
    requires CleanPairs(pairs)
    ensures CleanAddress(Join(pairs))
  {
    if pairs != [] {
      hide IsName;
      hide Clean;
      var p := pairs[0];
      assert p in pairs;
      PairChars(p.0, p.1);
      JoinChars(pairs[1..]);
      var rest := if |pairs| == 1 then "" else "&" + Join(pairs[1..]);
      assert Join(pairs) == p.0 + "=" + p.1 + rest;
    }
  }

  lemma TrimNothing(s: string)
    requires s != "" && !IsWhite(s[0]) && !IsWhite(s[|s| - 1])
    ensures Trim(s) == s
  {
    NothingToTrim(s);
  }

  lemma SchemeDropped(s: string)
    ensures ("bitcoin:" + s)[8..] == s
  {
  }

  lemma SchemeLower(s: string)
    ensures HasScheme("bitcoin:" + s)
  {
  }

  lemma SchemeTrim(s: string)
    requires s == "" || !IsWhite(s[|s| - 1])
    ensures Trim("bitcoin:" + s) == "bitcoin:" + s
  {
    if s != "" { LastOf("bitcoin:", s); }
    TrimNothing("bitcoin:" + s);
  }

  /** Behind the scheme the decoder sees all of `s`. */
  lemma DecodeBehindScheme(env: Env, s: string)
    requires s == "" || !IsWhite(s[|s| - 1])
    ensures var cut := IndexOf(s, '?');
            var tail := if cut < |s| then s[cut + 1..] else "";
            var query := tail[..IndexOf(tail, '?')];
            Decode(env, "bitcoin:" + s) ==
            if query == "" then Done(EMPTY.(address := Truthy(s[..cut]))) else Fill(env, s[..cut], ParseQuery(query))
  {
    hide Fill;
    hide HasScheme;
    hide Trim;
    hide IndexOf;
    hide ParseQuery;
    SchemeTrim(s);
    SchemeLower(s);
    SchemeDropped(s);
  }

  lemma {:induction false} SplitAtQuery(address: string, q: string)
    requires '?' !in address && '?' !in q
    ensures IndexOf(address, '?') == |address| && IndexOf(q, '?') == |q|
    ensures var s := address + ("?" + q);
            IndexOf(s, '?') == |address| && s[..|address|] == address && s[|address| + 1..] == q
  {
    IndexOfSuffix(address, '?', "?" + q);
    IndexOfSuffix(address, '?', "");
    IndexOfSuffix(q, '?', "");
    hide IndexOf;
    CutAt(address, "?" + q);
    assert address + "" == address && q + "" == q && ("?" + q)[1..] == q;
  }

  /** The decoder reads exactly the address and the pairs, their escapes decoded. */
  lemma DecodeOfUri(env: Env, address: string, pairs: Params)
    requires CleanAddress(address) && CleanPairs(pairs)
    ensures Decode(env, "bitcoin:" + UriTail(address, pairs)) ==
            if pairs == [] then Done(EMPTY.(address := Truthy(address))) else Fill(env, address, DecodePairs(pairs))
  {
    hide Decode;
    hide Fill;
    hide IsName;
    hide Clean;
    hide IndexOf;
    hide ParseQuery;
    hide Join;
    hide DecodePairs;
    var s := UriTail(address, pairs);
    var q := Join(pairs);
    JoinChars(pairs);
    SplitAtQuery(address, q);
    if pairs == [] {
      assert s == address && address[..|address|] == address;
      if s != "" { assert s[|s| - 1] in s; }
      DecodeBehindScheme(env, s);
      assert IndexOf("", '?') == 0;
    } else {
      JoinedPairs(pairs);
      assert q[|q| - 1] in q;
      LastOf(address + "?", q);
      Associative(address, "?", q);
      DecodeBehindScheme(env, s);
      assert q[..|q|] == q;
    }
  }

  lemma PairSeparate(name: string, value: string)
    requires IsName(name) && Clean(value)
    ensures '&' !in name && '=' !in name && '&' !in value && name[0] != '?'
  {
    assert name[0] in name;
  }

  lemma {:induction false} JoinedPairs(pairs: Params)
    requires CleanPairs(pairs) && pairs != []
    ensures Join(pairs) != "" && ParseQuery(Join(pairs)) == DecodePairs(pairs)
  {
    forall p | p in pairs ensures '&' !in p.0 && '=' !in p.0 && '&' !in p.1 {
      PairSeparate(p.0, p.1);
    }
    assert pairs[0] in pairs;
    PairSeparate(pairs[0].0, pairs[0].1);
    hide Join;
    hide ParseQuery;
    hide DecodePairs;
    hide Clean;
    QueryOfJoined(pairs);
  }

  lemma DecodeAppend(a: Params, b: Params)
    ensures DecodePairs(a + b) == DecodePairs(a) + DecodePairs(b)
  {
    hide DecodeComponent;
  }

  lemma DecodeSingle(name: string, value: string)
    requires IsName(name)
    ensures DecodePairs([(name, value)]) == [(name, DecodeComponent(value))]
  {
    NameDecodes(name);
    hide DecodeComponent;
  }

  lemma {:induction false} DecodePiece(name: string, value: string)
    requires IsName(name)
    ensures DecodePairs(Piece(name, value)) == Piece(name, DecodeComponent(value))
  {
    DecodeSingle(name, value);
    DecodesToNothing(value);
    hide DecodeComponent;
  }

  lemma DecodePieces(ark: string, lightning: string, amount: string)
    requires DecodeComponent(amount) == amount
    ensures DecodePairs(Pieces(ark, lightning, amount)) ==
            Pieces(DecodeComponent(ark), DecodeComponent(lightning), amount)
  {
    Names();
    hide DecodeComponent;
    hide DecodePairs;
    hide IsName;
    hide Piece;
    DecodeAppend(Piece("ark", ark) + Piece("lightning", lightning), Piece("amount", amount));
    DecodeAppend(Piece("ark", ark), Piece("lightning", lightning));
    DecodePiece("ark", ark);
    DecodePiece("lightning", lightning);
    DecodePiece("amount", amount);
  }

  // ---------- Amounts ----------

  /** `Number` of a decimal text is its value. */
  lemma {:induction false} NumberOfText(env: Env, negative: bool, integer: string, dot: bool, fraction: string)
    requires AllDigits(integer) && AllDigits(fraction) && integer != "" && (!dot ==> fraction == "")
    ensures AllDigits(integer + fraction)
    ensures var magnitude := Val(integer + fraction) as real / Pow10(|fraction|) as real;
            ToNumber(env, DecimalText(negative, integer, dot, fraction)) ==
              Finite(if negative then 0.0 - magnitude else magnitude)
  {
    hide Val;
    hide Pow10;
    hide AllDigits;
    hide Trim;
    hide DecimalText;
    hide Signed;
    hide Tail;
    hide IndexOf;
    var t := DecimalText(negative, integer, dot, fraction);
    DigitsAppend(integer, fraction);
    TextTrims(negative, integer, dot, fraction);
    SignOfText(negative, integer, dot, fraction);
    NumberParts(negative, integer, dot, fraction);
  }

  lemma DigitsAppend(a: string, b: string)
    requires AllDigits(a) && AllDigits(b)
    ensures AllDigits(a + b)
  {
  }

  lemma TextTrims(negative: bool, integer: string, dot: bool, fraction: string)
    requires AllDigits(integer) && AllDigits(fraction) && integer != "" && (!dot ==> fraction == "")
    ensures Trim(DecimalText(negative, integer, dot, fraction)) == DecimalText(negative, integer, dot, fraction)
  {
    DecimalTextClean(negative, integer, dot, fraction);
    hide DecimalText;
    var t := DecimalText(negative, integer, dot, fraction);
    assert t[0] in t && t[|t| - 1] in t;
    TrimNothing(t);
  }

  lemma NumberParts(negative: bool, integer: string, dot: bool, fraction: string)
    requires AllDigits(integer) && AllDigits(fraction) && integer != "" && (!dot ==> fraction == "")
    ensures integer[0] !in "+-"
    ensures var body := integer + Tail(dot, fraction);
            var i := IndexOf(body, '.');
            body[..i] == integer && (if i < |body| then body[i + 1..] else "") == fraction
  {
    assert integer[0] in integer;
    NoDotIn(integer);
    IndexOfSuffix(integer, '.', Tail(dot, fraction));
    hide IndexOf;
    CutAt(integer, Tail(dot, fraction));
    assert dot ==> ("." + fraction)[1..] == fraction;
  }

  /** A text of at most eight decimals is that many satoshis. */
  lemma {:induction false} SatoshisOfText(integer: string, fraction: string, sats: nat)
    requires AllDigits(integer) && AllDigits(fraction) && |fraction| <= 8
    requires AllDigits(integer + fraction) && AllDigits(integer + PadEnd(fraction, 8)) &&
             Val(integer + PadEnd(fraction, 8)) == sats
    ensures ToSatoshis(Val(integer + fraction) as real / Pow10(|fraction|) as real) == sats
  {
    hide Val;
    hide Pow10;
    var k := |fraction|;
    var pad := Zeros(8 - k);
    assert integer + PadEnd(fraction, 8) == (integer + fraction) + pad;
    ValAppend(integer + fraction, pad);
    ValZeros(8 - k);
    Pow10Add(8 - k, k);
    var (n, p, q) := (Val(integer + fraction), Pow10(k), Pow10(8 - k));
    Pow10Of8();
    Scaled(n, p, q);
  }

  lemma Pow10Of8()
    ensures Pow10(8) == 1_0000_0000
  {
    assert Pow10(4) == 10000;
    Pow10Add(4, 4);
  }

  /** `n / p` times `q * p` is `n * q`. */
  lemma Scaled(n: nat, p: nat, q: nat)
    requires p > 0 && q * p == 1_0000_0000
    ensures ToSatoshis(n as real / p as real) == n * q
  {
  }

  /** Reading an amount text: a negative one is below zero, any other is exactly its satoshis. */
  ghost predicate ReadsAs(number: Number, sats: int) {
    number.Finite? && if sats < 0 then number.r < 0.0 else number.r >= 0.0 && ToSatoshis(number.r) == sats
  }

  lemma {:induction false} TextReadsAs(env: Env, negative: bool, integer: string, dot: bool, fraction: string,
      magnitude: nat)
    requires AllDigits(integer) && AllDigits(fraction) && integer != "" && (!dot ==> fraction == "") && |fraction| <= 8
    requires AllDigits(integer + PadEnd(fraction, 8)) && Val(integer + PadEnd(fraction, 8)) == magnitude
    requires negative ==> magnitude > 0
    ensures ReadsAs(ToNumber(env, DecimalText(negative, integer, dot, fraction)),
                    if negative then 0 - magnitude else magnitude)
  {
    NumberOfText(env, negative, integer, dot, fraction);
    SatoshisOfText(integer, fraction, magnitude);
    hide ToNumber;
    hide DecimalText;
    hide Val;
    hide Pow10;
    hide PadEnd;
    PositiveSatoshis(Val(integer + fraction), Pow10(|fraction|), magnitude);
  }

  lemma PositiveSatoshis(n: nat, p: nat, sats: nat)
    requires p > 0 && ToSatoshis(n as real / p as real) == sats
    ensures n as real / p as real >= 0.0 && (sats > 0 ==> n as real / p as real > 0.0)
  {
  }

  lemma BitcoinTextReadsAs(env: Env, sats: int)
    ensures ReadsAs(ToNumber(env, BitcoinText(sats)), sats)
  {
    hide ToNumber;
    hide Val;
    hide CentsToUnits;
    hide PadEnd;
    hide DecimalText;
    hide ReadsAs;
    assert ConversionDecimals(BITCOIN_DECIMALS) == 8;
    var integer, fraction := CentsParts(sats, BITCOIN_DECIMALS);
    TextReadsAs(env, sats < 0, integer, fraction != "", fraction, if sats < 0 then -sats else sats);
  }

  // ---------- The round trips ----------

  /** What a payment URI decodes to. A lightning value is told apart by its own prefix. */
  function Expected(env: Env, address: string, ark: string, lightning: string, sats: int): Decoded {
    Decoded(Truthy(address), When(ark, ark != "" && env.isValidArkAddress(ark)),
            if sats == 0 then None else Some(sats), None,
            When(lightning, IsInvoice(lightning)), When(lightning, IsLnurl(lightning)), None)
  }

  /** For every set of fields that do not run into each other the decoded URI is those fields, read as form-encoded, the
    * amount exact: the invoice, or the lnurl when there is none. A negative amount is the one thing the decoder turns
    * down.
    */
  lemma DecodeEncode(env: Env, address: string, ark: string, invoice: string, sats: int, lnurl: string)
    requires CleanAddress(address) && Clean(ark) && Clean(invoice) && Clean(lnurl)
    ensures Decode(env, Encode(address, ark, invoice, sats, lnurl)) ==
            if sats < 0 then Failed(InvalidAmount)
              else Done(Expected(env, address, DecodeComponent(ark), DecodeComponent(Lightning(invoice, lnurl)), sats))
  {
    hide Clean;
    hide CleanAddress;
    hide Encode;
    hide Decode;
    hide CentsToUnits;
    hide ToNumber;
    hide IsInvoice;
    hide IsLnurl;
    hide GetParam;
    var (l, amount) := (Lightning(invoice, lnurl), AmountText(sats));
    EncodeText(address, ark, invoice, sats, lnurl);
    AmountClean(sats, BITCOIN_DECIMALS);
    PiecesClean(ark, l, amount);
    DecodeOfUri(env, address, Pieces(ark, l, amount));
    NothingLightning();
    BitcoinTextReadsAs(env, sats);
    DecodesToNothing("");
    DecodesToNothing(ark);
    DecodesToNothing(l);
    hide DecodeComponent;
    hide DecodePairs;
    DecodePieces(ark, l, amount);
    FillPieces(env, address, DecodeComponent(ark), DecodeComponent(l), amount);
    hide Lightning;
    hide Fill;
    assert Pieces(ark, l, amount) == [] <==> ark == "" && l == "" && amount == "";
  }

  lemma PiecesClean(ark: string, lightning: string, amount: string)
    requires (ark == "" || Clean(ark)) && (lightning == "" || Clean(lightning)) && (amount == "" || Clean(amount))
    ensures CleanPairs(Pieces(ark, lightning, amount))
  {
    Names();
    hide IsName;
    hide Clean;
  }

  lemma FillPieces(env: Env, address: string, ark: string, lightning: string, amount: string)
    ensures var number := ToNumber(env, amount);
            Fill(env, address, Pieces(ark, lightning, amount)) ==
            if amount != "" && (number.NotFinite? || number.r < 0.0) then Failed(InvalidAmount)
            else Done(Decoded(
              Truthy(address), When(ark, ark != "" && env.isValidArkAddress(ark)),
              if amount != "" then Some(ToSatoshis(number.r)) else None, None,
              When(lightning, IsInvoice(lightning)), When(lightning, IsLnurl(lightning)), None))
  {
    hide GetParam;
    hide Pieces;
    hide ToNumber;
    hide IsInvoice;
    hide IsLnurl;
    hide IsAssetAmount;
    Names();
    hide IsName;
    GetAmongPieces(ark, lightning, amount, "ark");
    GetAmongPieces(ark, lightning, amount, "lightning");
    GetAmongPieces(ark, lightning, amount, "amount");
    GetAmongPieces(ark, lightning, amount, "assetid");
  }

  /** Reading the field as form-encoded changes nothing: it has neither a `+` nor an escape that means another text. */
  predicate Survives(field: string) { DecodeComponent(field) == field }

  /** Each field comes back exactly when it survives the decoding the encoder did not prepare it for and meets the
    * decoder's own test for it.
    */
  lemma FieldsRecovered(env: Env, address: string, ark: string, invoice: string, sats: nat, lnurl: string)
    requires CleanAddress(address) && Clean(ark) && Clean(invoice) && Clean(lnurl)
    ensures var o := Decode(env, Encode(address, ark, invoice, sats, lnurl));
            o.Done? && o.decoded.address.GetOr("") == address && o.decoded.satoshis.GetOr(0) == sats &&
            (o.decoded.arkAddress.GetOr("") == ark <==> ark == "" || (Survives(ark) && env.isValidArkAddress(ark))) &&
            (o.decoded.invoice.GetOr("") == invoice <==>
              if invoice == "" then !IsInvoice(DecodeComponent(lnurl)) else Survives(invoice) && IsInvoice(invoice)) &&
            (invoice == "" ==>
              (o.decoded.lnUrl.GetOr("") == lnurl <==> lnurl == "" || (Survives(lnurl) && IsLnurl(lnurl))))
  {
    DecodeEncode(env, address, ark, invoice, sats, lnurl);
    DecodesToNothing(ark);
    DecodesToNothing(invoice);
    DecodesToNothing(lnurl);
    NothingLightning();
    hide Decode;
    hide Encode;
    hide DecodeComponent;
    hide IsInvoice;
    hide IsLnurl;
  }

  /** The same keys but for their case, with the same values. */
  ghost predicate SameButCase(a: Params, b: Params) {
    |a| == |b| && forall i :: 0 <= i < |a| ==> Lower(a[i].0) == Lower(b[i].0) && a[i].1 == b[i].1
  }

  lemma {:induction false} GetIgnoresCase(a: Params, b: Params, name: string)
    requires SameButCase(a, b)
    ensures GetParam(a, name) == GetParam(b, name)
  {
    if a != [] {
      GetIgnoresCase(a[1..], b[1..], name);
    }
  }

  /** Upper-case and mixed-case keys mean the same. */
  lemma KeysIgnoreCase(env: Env, address: string, a: Params, b: Params)
    requires SameButCase(a, b)
    ensures Fill(env, address, a) == Fill(env, address, b)
  {
    hide GetParam;
    hide SameButCase;
    hide FillWith;
    GetIgnoresCase(a, b, "ark");
    GetIgnoresCase(a, b, "assetid");
    GetIgnoresCase(a, b, "amount");
    GetIgnoresCase(a, b, "lightning");
  }

  /** The text of an asset amount has the form the decoder asks for unless it is negative. */
  lemma AssetTextForm(cents: int, decimals: Number)
    ensures IsAssetAmount(CentsToUnits(cents, decimals)) <==> cents >= 0
  {
    hide CentsToUnits;
    hide ConversionDecimals;
    var integer, fraction := CentsParts(cents, decimals);
    CanonicalNotEmpty(integer);
    hide Canonical;
    hide Val;
    hide PadEnd;
    var dot := fraction != "";
    SignOfText(cents < 0, integer, dot, fraction);
    NumberParts(cents < 0, integer, dot, fraction);
    if cents < 0 {
      NegativeIsNoAmount(CentsToUnits(cents, decimals));
    }
    hide IndexOf;
  }

  lemma NegativeIsNoAmount(t: string)
    requires t != "" && t[0] == '-'
    ensures !IsAssetAmount(t)
  {
    var i := IndexOf(t, '.');
    if i > 0 { assert t[..i][0] in t[..i]; }
  }

  lemma AssetText(ark: string, assetId: string, amount: string)
    ensures "bitcoin:?ark=" + ark + "&assetid=" + assetId + "&amount=" + amount ==
            "bitcoin:" + UriTail("", [("ark", ark), ("assetid", assetId), ("amount", amount)])
  {
    var pairs := [("ark", ark), ("assetid", assetId), ("amount", amount)];
    assert pairs[1..] == [("assetid", assetId), ("amount", amount)] && pairs[1..][1..] == [("amount", amount)];
    JoinFirst(pairs);
    JoinFirst(pairs[1..]);
    assert Join([("amount", amount)]) == "amount" + "=" + amount + "";
    AssetConcat(ark, assetId, amount);
  }

  lemma AssetConcat(ark: string, assetId: string, amount: string)
    ensures "bitcoin:?ark=" + ark + "&assetid=" + assetId + "&amount=" + amount ==
            "bitcoin:" + ("" + ("?" + ("ark" + "=" + ark + "&" +
              ("assetid" + "=" + assetId + "&" + ("amount" + "=" + amount + "")))))
  {
  }

  lemma {:induction false} GetAmongThree(ark: string, assetId: string, amount: string, wanted: string)
    ensures GetParam([("ark", ark), ("assetid", assetId), ("amount", amount)], wanted) ==
            if wanted == "ark" then Some(ark)
            else if wanted == "assetid" then Some(assetId)
            else if wanted == "amount" then Some(amount)
            else None
  {
    Names();
    hide IsName;
    hide GetParam;
    GetSingle("ark", ark, wanted);
    GetSingle("assetid", assetId, wanted);
    GetSingle("amount", amount, wanted);
    GetParamAppend([("ark", ark)], [("assetid", assetId)], wanted);
    GetParamAppend([("ark", ark), ("assetid", assetId)], [("amount", amount)], wanted);
    assert [("ark", ark)] + [("assetid", assetId)] == [("ark", ark), ("assetid", assetId)];
    assert [("ark", ark), ("assetid", assetId)] + [("amount", amount)] ==
           [("ark", ark), ("assetid", assetId), ("amount", amount)];
  }

  /** The asset form decodes exactly when the amount is not negative, and then to the very cents encoded. */
  lemma DecodeEncodeAsset(env: Env, ark: string, assetId: string, cents: int, decimals: Number)
    requires Clean(ark) && Clean(assetId) && assetId != ""
    ensures var o := Decode(env, EncodeAsset(ark, assetId, cents, decimals));
            if cents < 0 then o == Failed(InvalidAssetAmount)
            else
              o.Done? && o.decoded.assetAmount.Some? &&
                UnitsToCents(o.decoded.assetAmount.value, decimals) == Ok(cents) &&
              o.decoded.(assetAmount := None) ==
                var shown := DecodeComponent(ark);
                EMPTY.(arkAddress := When(shown, shown != "" && env.isValidArkAddress(shown)),
                       assetId := Some(DecodeComponent(assetId)))
  {
    hide Clean;
    hide Decode;
    hide CentsToUnits;
    hide UnitsToCents;
    hide IsAssetAmount;
    hide UriTail;
    hide Fill;
    var amount := CentsToUnits(cents, decimals);
    var pairs := [("ark", ark), ("assetid", assetId), ("amount", amount)];
    AssetText(ark, assetId, amount);
    AmountClean(cents, decimals);
    ThreeClean(ark, assetId, amount);
    EmptyClean();
    DecodeOfUri(env, "", pairs);
    AssetTextForm(cents, decimals);
    CentsRoundTrip(cents, decimals);
    DecodeThree(ark, assetId, amount);
    DecodesToNothing(assetId);
    hide DecodeComponent;
    hide DecodePairs;
    FillAsset(env, DecodeComponent(ark), DecodeComponent(assetId), amount);
  }

  lemma DecodeThree(ark: string, assetId: string, amount: string)
    requires DecodeComponent(amount) == amount
    ensures DecodePairs([("ark", ark), ("assetid", assetId), ("amount", amount)]) ==
            [("ark", DecodeComponent(ark)), ("assetid", DecodeComponent(assetId)), ("amount", amount)]
  {
    Names();
    hide IsName;
    hide DecodeComponent;
    hide DecodePairs;
    DecodeSingle("ark", ark);
    DecodeSingle("assetid", assetId);
    DecodeSingle("amount", amount);
    DecodeAppend([("ark", ark)], [("assetid", assetId)]);
    DecodeAppend([("ark", ark), ("assetid", assetId)], [("amount", amount)]);
    assert [("ark", ark)] + [("assetid", assetId)] == [("ark", ark), ("assetid", assetId)];
    assert [("ark", ark), ("assetid", assetId)] + [("amount", amount)] ==
           [("ark", ark), ("assetid", assetId), ("amount", amount)];
  }

  lemma EmptyClean()
    ensures CleanAddress("")
  {
  }

  lemma ThreeClean(ark: string, assetId: string, amount: string)
    requires Clean(ark) && Clean(assetId) && Clean(amount)
    ensures CleanPairs([("ark", ark), ("assetid", assetId), ("amount", amount)])
  {
    Names();
    hide IsName;
    hide Clean;
  }

  lemma FillAsset(env: Env, ark: string, assetId: string, amount: string)
    requires assetId != ""
    ensures Fill(env, "", [("ark", ark), ("assetid", assetId), ("amount", amount)]) ==
            if !IsAssetAmount(amount) then Failed(InvalidAssetAmount)
            else Done(EMPTY.(arkAddress := When(ark, ark != "" && env.isValidArkAddress(ark)),
                             assetAmount := Some(amount), assetId := Some(assetId)))
  {
    Names();
    hide IsName;
    hide GetParam;
    hide IsAssetAmount;
    hide ToNumber;
    hide IsInvoice;
    hide IsLnurl;
    GetAmongThree(ark, assetId, amount, "ark");
    GetAmongThree(ark, assetId, amount, "assetid");
    GetAmongThree(ark, assetId, amount, "amount");
    GetAmongThree(ark, assetId, amount, "lightning");
    NothingLightning();
  }

  /** The on-chain QR text of a quote is a payment URI for the same address and the exact satoshis. */
  lemma DecodeOnchainQr(env: Env, m: ArkUri.Method, sats: int)
    requires m.kind == "Onchain" && m.address != "" && CleanAddress(m.address)
    ensures Decode(env, ArkUri.BuildQrForRail(m, sats)) ==
            if sats < 0 then Failed(InvalidAmount) else Done(EMPTY.(address := Some(m.address), satoshis := Some(sats)))
  {
    hide CleanAddress;
    hide Decode;
    hide Fill;
    hide ToNumber;
    var amount := ArkUri.FixedBitcoin(sats);
    FixedReadsAs(env, sats);
    hide ArkUri.FixedBitcoin;
    QrText(m.address, amount);
    PiecesClean("", "", amount);
    assert Pieces("", "", amount) == [("amount", amount)];
    DecodeOfUri(env, m.address, Pieces("", "", amount));
    DecodesToNothing("");
    DecodePieces("", "", amount);
    hide DecodeComponent;
    hide DecodePairs;
    FillPieces(env, m.address, "", "", amount);
    NothingLightning();
  }

  lemma QrText(address: string, amount: string)
    ensures "bitcoin:" + address + "?amount=" + amount == "bitcoin:" + UriTail(address, [("amount", amount)])
  {
    var pairs := [("amount", amount)];
    assert Join(pairs) == "amount" + "=" + amount + "";
    hide Join;
    assert Join(pairs) == "amount=" + amount;
  }

  /** `toFixed(8)` as a decimal text. */
  lemma FixedParts(n: nat) returns (integer: string, fraction: string)
    ensures AllDigits(integer) && AllDigits(fraction) && integer != "" && |fraction| == 8
    ensures AllDigits(integer + fraction) && Val(integer + fraction) == n
    ensures ArkUri.Fixed(n) == DecimalText(false, integer, true, fraction)
  {
    PadStartKeeps(n, 8);
    var digits := PadStart(ToDigits(n), 9);
    hide ToDigits;
    hide PadStart;
    hide Val;
    integer, fraction := digits[..|digits| - 8], digits[|digits| - 8..];
    CanonicalNotEmpty(integer);
    Rejoin(digits, |digits| - 8);
    Associative(integer, ".", fraction);
  }

  lemma FixedReadsAs(env: Env, sats: int)
    ensures var amount := ArkUri.FixedBitcoin(sats);
            amount != "" && Clean(amount) && DecodeComponent(amount) == amount && ReadsAs(ToNumber(env, amount), sats)
  {
    hide DecodeComponent;
    hide PlainValue;
    hide Val;
    hide ReadsAs;
    hide ToNumber;
    hide Clean;
    hide DecimalText;
    hide ArkUri.Fixed;
    hide AllDigits;
    hide PadEnd;
    var magnitude := if sats < 0 then -sats else sats;
    var integer, fraction := FixedParts(magnitude);
    FullFraction(fraction);
    NegativeText(integer, true, fraction);
    TextReadsAs(env, sats < 0, integer, true, fraction, magnitude);
    DecimalTextClean(sats < 0, integer, true, fraction);
    PlainDecodes(ArkUri.FixedBitcoin(sats));
  }

  lemma FullFraction(fraction: string)
    requires |fraction| == 8
    ensures PadEnd(fraction, 8) == fraction
  {
  }

  // ---------- What is refused ----------

  /** `s` starts with the text, in small or capital letters. */
  predicate StartsAnyCase(s: string, small: string, capital: string)
    requires |small| == |capital|
  {
    |s| >= |small| && forall i :: 0 <= i < |small| ==> s[i] == small[i] || s[i] == capital[i]
  }

  lemma LowerStarts(s: string, small: string, capital: string)
    requires |small| == |capital|
    requires forall i :: 0 <= i < |small| ==>
               forall c: char :: LowerChar(c) == small[i] <==> c == small[i] || c == capital[i]
    ensures small <= Lower(s) <==> StartsAnyCase(s, small, capital)
  {
    var low := Lower(s);
    if small <= low {
      forall i | 0 <= i < |small| ensures s[i] == small[i] || s[i] == capital[i] {
        assert low[i] == small[i] && low[i] == LowerChar(s[i]);
      }
    }
    if StartsAnyCase(s, small, capital) {
      forall i | 0 <= i < |small| ensures low[i] == small[i] {
        assert low[i] == LowerChar(s[i]);
      }
      assert low[..|small|] == small;
    }
  }

  lemma SchemeIs(s: string)
    ensures HasScheme(s) <==> StartsAnyCase(s, "bitcoin:", "BITCOIN:")
  {
    LowerStarts(s, "bitcoin:", "BITCOIN:");
  }

  /** Which texts count as an lnurl, and which others as an invoice. */
  lemma LightningIs(s: string)
    ensures IsLnurl(s) <==> StartsAnyCase(s, "lnurl", "LNURL")
    ensures IsInvoice(s) <==> StartsAnyCase(s, "ln", "LN") && !StartsAnyCase(s, "lnurl", "LNURL")
  {
    LowerStarts(s, "lnurl", "LNURL");
    LowerStarts(s, "ln", "LN");
  }

  /** The pattern of an asset amount: digits, and if there is a point digits after it. */
  lemma {:induction false} AssetAmountIs(integer: string, dot: bool, fraction: string)
    requires '.' !in integer && (!dot ==> fraction == "")
    ensures IsAssetAmount(integer + Tail(dot, fraction)) <==>
            integer != "" && AllDigits(integer) && AllDigits(fraction) && (dot ==> fraction != "")
  {
    hide AllDigits;
    if dot {
      IndexOfSuffix(integer, '.', "." + fraction);
      hide IndexOf;
      var s := integer + ("." + fraction);
      assert s[..|integer|] == integer && s[|integer| + 1..] == fraction;
    } else {
      IndexOfSuffix(integer, '.', "");
      hide IndexOf;
      assert integer + Tail(dot, fraction) == integer && integer + "" == integer && integer[..|integer|] == integer;
      NoDigits();
    }
  }

  lemma NoDigits()
    ensures AllDigits("")
  {
  }

  /** Of several parameters whose keys agree but for case the first counts. */
  lemma {:induction false} GetParamFirst(params: Params, name: string, i: nat)
    requires i <= |params| && (i < |params| ==> Lower(params[i].0) == name)
    requires forall j :: 0 <= j < i ==> Lower(params[j].0) != name
    ensures GetParam(params, name) == if i < |params| then Some(params[i].1) else None
  {
    if i > 0 {
      assert Lower(params[0].0) != name;
      GetParamFirst(params[1..], name, i - 1);
    }
  }

  /** A text without the scheme is no URI. With an asset named, an amount that is no plain decimal is refused; with
   * none,
    * one that is no number, infinite or negative. Nothing else is.
    */
  lemma {:induction false} Refusals(env: Env, address: string, params: Params, text: string)
    ensures Decode(env, text) == Failed(InvalidUri) <==> !StartsAnyCase(Trim(text), "bitcoin:", "BITCOIN:")
    ensures var (assetId, amount) := (GetParam(params, "assetid").GetOr(""), GetParam(params, "amount"));
            var o := Fill(env, address, params);
            (o == Failed(InvalidAssetAmount) <==> amount.Some? && assetId != "" && !IsAssetAmount(amount.value)) &&
            (o == Failed(InvalidAmount) <==>
               amount.Some? && assetId == "" &&
               (ToNumber(env, amount.value).NotFinite? || ToNumber(env, amount.value).r < 0.0)) &&
            o != Failed(InvalidUri)
  {
    SchemeIs(Trim(text));
    hide HasScheme;
    hide StartsAnyCase;
    hide Trim;
    hide GetParam;
    hide ToNumber;
    hide IsAssetAmount;
    hide IsLnurl;
    hide IsInvoice;
    hide ParseQuery;
    hide IndexOf;
  }

  /** What is not refused, field by field, whatever the parameters: each field comes from the first parameter of its
   * name
    * and from no other, the amount goes to the asset if one is named and is satoshis otherwise.
    */
  lemma {:induction false} FieldsRead(env: Env, address: string, params: Params)
    requires Fill(env, address, params).Done?
    ensures var d := Fill(env, address, params).decoded;
            d.address == (if address != "" then Some(address) else None)
    ensures var (d, ark) := (Fill(env, address, params).decoded, GetParam(params, "ark").GetOr(""));
            d.arkAddress == (if ark != "" && env.isValidArkAddress(ark) then Some(ark) else None)
    ensures var (d, assetId) := (Fill(env, address, params).decoded, GetParam(params, "assetid").GetOr(""));
            var amount := GetParam(params, "amount");
            if assetId != "" then d.assetId == Some(assetId) && d.assetAmount == amount && d.satoshis == None
            else d.assetId == None && d.assetAmount == None &&
                 d.satoshis == if amount.Some? then Some(ToSatoshis(ToNumber(env, amount.value).r)) else None
    ensures var (d, l) := (Fill(env, address, params).decoded, GetParam(params, "lightning").GetOr(""));
            d.lnUrl == (if StartsAnyCase(l, "lnurl", "LNURL") then Some(l) else None) &&
            d.invoice == (if StartsAnyCase(l, "ln", "LN") && !StartsAnyCase(l, "lnurl", "LNURL") then Some(l) else None)
  {
    LightningIs(GetParam(params, "lightning").GetOr(""));
    hide StartsAnyCase;
    hide GetParam;
    hide ToNumber;
    hide ToSatoshis;
    hide IsAssetAmount;
    hide IsLnurl;
    hide IsInvoice;
  }

  /** What is read of an amount in bitcoin: the satoshis it covers. */
  lemma SatoshisIs(r: real)
    ensures ToSatoshis(r) as real <= r * 100000000.0 < ToSatoshis(r) as real + 1.0
  {
  }

  /** A blank amount is 0. */
  lemma BlankNumber(env: Env, text: string)
    requires Trim(text) == ""
    ensures ToNumber(env, text) == Finite(0.0)
  {
  }
}
