/** The `ark:` payment URI: the printer behind a SatsPath quote and the wallet's parser. */
module ArkUri {
  import opened Options
  import opened Text
  import opened Decimals
  import opened UrlParams

  // ---------- The printer ----------

  /** A payment method of a quote; an absent field is "". */
  datatype Method = Method(
    kind: string, lightningAddress: string, address: string, server: string, pubkey: string, opaqueUri: string)

  predicate IsNative(s: string) { "tark1" <= s || "ark1" <= s }

  /** `String(n)` of an integer. */
  function IntegerText(n: int): string { if n < 0 then "-" + ToDigits(-n) else ToDigits(n) }

  /** `(n / 1e8).toFixed(8)` of an integer. */
  function FixedBitcoin(n: int): string { if n < 0 then "-" + Fixed(-n) else Fixed(n) }

  function Fixed(n: nat): string {
    var digits := PadStart(ToDigits(n), 9);
    digits[..|digits| - 8] + "." + digits[|digits| - 8..]
  }

  function BuildQrForRail(m: Method, amountSats: int): string {
    if m.kind == "Lightning" then m.lightningAddress
    else if m.kind == "Onchain" then
      if m.address != "" then "bitcoin:" + m.address + "?amount=" + FixedBitcoin(amountSats) else ""
    else if m.kind == "Ark" then
      if m.opaqueUri != "" then m.opaqueUri
      else if IsNative(m.pubkey) then m.pubkey
      else if IsNative(m.address) then m.address
      else if m.server != "" && m.pubkey != "" then
        "ark:" + m.pubkey + "?server=" + EncodeComponent(m.server) + "&amount=" + IntegerText(amountSats)
      else ""
    else ""
  }

  /** The method is printed as an `ark:` URI. */
  predicate PrintsUri(m: Method) {
    m.kind == "Ark" && m.opaqueUri == "" && !IsNative(m.pubkey) && !IsNative(m.address) && m.server != "" &&
      m.pubkey != ""
  }

  // ---------- The parser ----------

  datatype Amount = Absent | NotANumber | Value(n: int)

  datatype ParsedUri = Uri(pubkey: string, server: string, amount: Amount) | NotArkUri | MissingPubkey

  /** The digits at the start of `s`. */
  function LeadingDigits(s: string): (r: string)
    ensures r <= s && AllDigits(r)
  {
    if s != "" && IsDigit(s[0]) then [s[0]] + LeadingDigits(s[1..]) else ""
  }

  /** `parseInt(s, 10)`. */
  function ParseInt(s: string): Amount {
    var t := TrimStart(s);
    var digits := LeadingDigits(if t != "" && t[0] in "+-" then t[1..] else t);
    if digits == "" then NotANumber else Value(if t[0] == '-' then 0 - Val(digits) else Val(digits))
  }

  function ParseArkUri(uri: string): ParsedUri {
    if !("ark:" <= uri) then NotArkUri
    else
      var rest := uri[4..];
      var cut := IndexOf(rest, '?');
      if cut == |rest| then Uri(Trim(rest), "", Absent)
      else
        var pubkey := Trim(rest[..cut]);
        var params := ParseQuery(rest[cut + 1..]);
        var server := Get(params, "server").GetOr("");
        var amount := Get(params, "amount").GetOr("");
        if pubkey == "" then MissingPubkey
        else Uri(pubkey, server, if amount == "" then Absent else ParseInt(amount))
  }

  // ---------- Printing, then parsing ----------

  lemma {:induction false} LeadingDigitsOf(digits: string, rest: string)
    requires AllDigits(digits) && (rest == "" || !IsDigit(rest[0]))
    ensures LeadingDigits(digits + rest) == digits
  {
    if digits == "" {
      assert digits + rest == rest;
    } else {
      assert digits[0] in digits && (digits + rest)[1..] == digits[1..] + rest;
      LeadingDigitsOf(digits[1..], rest);
    }
  }

  lemma ParseIntOfInteger(n: int)
    ensures IntegerText(n) != "" && ParseInt(IntegerText(n)) == Value(n)
  {
    var digits := ToDigits(if n < 0 then -n else n);
    ValOfDigits(if n < 0 then -n else n);
    hide ToDigits;
    hide Val;
    assert digits + "" == digits;
    ParseIntPrefix(n < 0, digits, "");
    assert "" + digits == digits;
  }

  lemma {:induction false} ParseIntOfNegative(digits: string, rest: string)
    requires AllDigits(digits) && digits != "" && (rest == "" || !IsDigit(rest[0]))
    ensures ParseInt("-" + (digits + rest)) == Value(0 - Val(digits))
  {
    var t := "-" + (digits + rest);
    LeadingDigitsOf(digits, rest);
    CutAt("-", digits + rest);
    assert t[0] == '-' && t[1..] == digits + rest;
    assert !IsWhite('-');
    NothingToTrim(t);
    hide LeadingDigits;
    hide Val;
    hide TrimStart;
    hide IsWhite;
    assert TrimStart(t) == t && LeadingDigits(t[1..]) == digits;
  }

  lemma {:induction false} ParseIntOfDigits(digits: string, rest: string)
    requires AllDigits(digits) && digits != "" && (rest == "" || !IsDigit(rest[0]))
    ensures ParseInt(digits + rest) == Value(Val(digits))
  {
    var t := digits + rest;
    LeadingDigitsOf(digits, rest);
    assert digits[0] in digits && t[0] == digits[0];
    assert IsDigit(t[0]) && !IsWhite(t[0]) && t[0] !in "+-";
    NothingToTrim(t);
    hide LeadingDigits;
    hide Val;
    hide TrimStart;
    hide IsWhite;
    hide AllDigits;
    assert TrimStart(t) == t && LeadingDigits(t) == digits;
  }

  /** An amount is read as far as its digits go, under its sign. */
  lemma {:induction false} ParseIntPrefix(negative: bool, digits: string, rest: string)
    requires AllDigits(digits) && digits != "" && (rest == "" || !IsDigit(rest[0]))
    ensures ParseInt((if negative then "-" else "") + (digits + rest)) ==
            Value(if negative then 0 - Val(digits) else Val(digits))
  {
    if negative {
      ParseIntOfNegative(digits, rest);
    } else {
      ParseIntOfDigits(digits, rest);
      assert "" + (digits + rest) == digits + rest;
    }
    hide ParseInt;
  }

  lemma IntegerTextPlain(n: int)
    ensures PlainValue(IntegerText(n)) && '&' !in IntegerText(n)
  {
  }

  function Pairs(server: string, amount: int): Params {
    [("server", EncodeComponent(server)), ("amount", IntegerText(amount))]
  }

  /** What the query of a printed URI parses to: the server exactly as given, whatever characters it has. */
  lemma QueryOfUri(server: string, amount: int)
    ensures ParseQuery(Join(Pairs(server, amount))) == [("server", server), ("amount", IntegerText(amount))]
  {
    hide *;
    PairsSeparate(server, amount);
    ParseJoinedPairs(Pairs(server, amount));
    DecodedPairs(server, amount);
    JoinStarts(Pairs(server, amount));
    QueryOfPairs(Join(Pairs(server, amount)));
  }

  lemma PairsSeparate(server: string, amount: int)
    ensures Separate(Pairs(server, amount)) && Pairs(server, amount) != []
    ensures Pairs(server, amount)[0].0 != "" && Pairs(server, amount)[0].0[0] != '?'
  {
    EncodedChars(server);
    IntegerTextPlain(amount);
    hide EncodeComponent;
    hide IntegerText;
    assert '&' !in EncodeComponent(server);
  }

  lemma NamesDecode()
    ensures DecodeComponent("server") == "server" && DecodeComponent("amount") == "amount"
  {
    hide DecodeComponent;
    assert PlainValue("server") by { assert forall c <- "server" :: 'a' <= c <= 'z'; }
    assert PlainValue("amount") by { assert forall c <- "amount" :: 'a' <= c <= 'z'; }
    hide PlainValue;
    PlainDecodes("server");
    PlainDecodes("amount");
  }

  lemma DecodedPairs(server: string, amount: int)
    ensures DecodePairs(Pairs(server, amount)) == [("server", server), ("amount", IntegerText(amount))]
  {
    NamesDecode();
    IntegerTextPlain(amount);
    DecodeEncodeComponent(server);
    PlainDecodes(IntegerText(amount));
    DecodeTwo(Pairs(server, amount)[0], Pairs(server, amount)[1]);
    hide EncodeComponent;
    hide DecodeComponent;
    hide DecodePairs;
    hide IntegerText;
    hide PlainValue;
  }

  lemma DecodeTwo(p: (string, string), q: (string, string))
    ensures DecodePairs([p, q]) ==
            [(DecodeComponent(p.0), DecodeComponent(p.1)), (DecodeComponent(q.0), DecodeComponent(q.1))]
  {
  }

  lemma UriText(pubkey: string, server: string, amount: string)
    ensures "ark:" + pubkey + "?server=" + server + "&amount=" + amount ==
            "ark:" + (pubkey + ("?" + Join([("server", server), ("amount", amount)])))
  {
    var pairs := [("server", server), ("amount", amount)];
    assert pairs[1..] == [("amount", amount)];
    assert Join(pairs[1..]) == "amount=" + amount;
    assert Join(pairs) == "server=" + server + ("&" + Join(pairs[1..]));
    hide Join;
    assert Join(pairs) == "server=" + server + "&amount=" + amount;
  }

  /** The first '?' ends the pubkey. */
  lemma ParseOfParts(pubkey: string, query: string)
    requires '?' !in pubkey
    ensures var (params, parsed) := (ParseQuery(query), ParseArkUri("ark:" + (pubkey + ("?" + query))));
            var amount := Get(params, "amount").GetOr("");
            if Trim(pubkey) == "" then parsed == MissingPubkey
            else parsed == Uri(Trim(pubkey), Get(params, "server").GetOr(""),
                               if amount == "" then Absent else ParseInt(amount))
  {
    hide ParseQuery;
    hide Get;
    hide ParseInt;
    hide Trim;
    IndexOfSuffix(pubkey, '?', "?" + query);
    hide IndexOf;
    var rest := pubkey + ("?" + query);
    assert rest[..|pubkey|] == pubkey && rest[|pubkey| + 1..] == query;
    DropScheme(rest);
  }

  lemma DropScheme(rest: string)
    ensures "ark:" <= "ark:" + rest && ("ark:" + rest)[4..] == rest
  {
  }

  /** Whatever the server and the integer amount, they come back. */
  lemma {:induction false} ParseOfUri(pubkey: string, server: string, amount: int)
    requires '?' !in pubkey
    ensures ParseArkUri("ark:" + pubkey + "?server=" + EncodeComponent(server) + "&amount=" + IntegerText(amount)) ==
            if Trim(pubkey) == "" then MissingPubkey else Uri(Trim(pubkey), server, Value(amount))
  {
    UriText(pubkey, EncodeComponent(server), IntegerText(amount));
    QueryOfUri(server, amount);
    ParseIntOfInteger(amount);
    ParseOfParts(pubkey, Join(Pairs(server, amount)));
    GetTwo(server, IntegerText(amount));
    hide IntegerText;
    hide EncodeComponent;
    hide ParseArkUri;
    hide ParseQuery;
    hide ParseInt;
    hide Get;
    hide Trim;
    hide Join;
  }

  lemma GetTwo(server: string, amount: string)
    ensures var params := [("server", server), ("amount", amount)];
            Get(params, "server") == Some(server) && Get(params, "amount") == Some(amount)
  {
  }

  lemma TrimWithin(s: string)
    ensures forall c <- Trim(s) :: c in s
  {
  }

  /** With a '?' inside it the pubkey comes back cut. */
  lemma CutPubkey(pubkey: string, rest: string)
    requires '?' in pubkey
    ensures ParseArkUri("ark:" + pubkey + rest).Uri? ==> '?' !in ParseArkUri("ark:" + pubkey + rest).pubkey
  {
    hide ParseQuery;
    hide Trim;
    var t := ("ark:" + pubkey + rest)[4..];
    assert t == pubkey + rest;
    var i :| 0 <= i < |pubkey| && pubkey[i] == '?';
    assert t[i] == '?';
    var cut := IndexOf(t, '?');
    TrimWithin(t[..cut]);
  }

  /** A printed URI gives back its pubkey, server and amount exactly when the pubkey has no '?' in it
    * and no blanks around it. The server may be any text.
    */
  lemma ParseBuilt(m: Method, amount: int)
    requires PrintsUri(m)
    ensures ParseArkUri(BuildQrForRail(m, amount)) == Uri(m.pubkey, m.server, Value(amount)) <==>
            '?' !in m.pubkey && Trim(m.pubkey) == m.pubkey
  {
    var tail := "?server=" + EncodeComponent(m.server) + "&amount=" + IntegerText(amount);
    assert BuildQrForRail(m, amount) == "ark:" + m.pubkey + tail;
    if '?' in m.pubkey {
      CutPubkey(m.pubkey, tail);
    } else {
      ParseOfUri(m.pubkey, m.server, amount);
    }
  }

  /** What a native address starts with. */
  lemma NativeIs(s: string)
    ensures IsNative(s) <==> (|s| >= 5 && s[..5] == "tark1") || (|s| >= 4 && s[..4] == "ark1")
  {
  }

  /** A native address is printed as it is, which is no `ark:` URI. */
  lemma NativePassesThrough(m: Method, amount: int)
    requires m.kind == "Ark" && m.opaqueUri == "" && (IsNative(m.pubkey) || IsNative(m.address))
    ensures var qr := BuildQrForRail(m, amount);
            qr == (if IsNative(m.pubkey) then m.pubkey else m.address) && ParseArkUri(qr) == NotArkUri
  {
    var qr := BuildQrForRail(m, amount);
    assert "ark:" <= qr ==> qr[3] == ':';
    assert "tark1" <= qr ==> qr[0] == 't';
    assert "ark1" <= qr ==> qr[3] == '1';
  }

  /** Without a query the rest of the text is the pubkey; without the scheme there is none. */
  lemma ParseBare(s: string)
    ensures '?' !in s ==> ParseArkUri("ark:" + s) == Uri(Trim(s), "", Absent)
    ensures (|s| < 4 || s[..4] != "ark:") ==> ParseArkUri(s) == NotArkUri
  {
    hide Trim;
    if '?' !in s {
      DropScheme(s);
      IndexOfSuffix(s, '?', "");
      assert s + "" == s;
    }
  }

  /** An amount without a digit to start with is no number. */
  lemma ParseIntNone(s: string)
    requires s == "" || !IsWhite(s[0])
    requires s == "" || (if s[0] in "+-" then |s| == 1 || !IsDigit(s[1]) else !IsDigit(s[0]))
    ensures ParseInt(s) == NotANumber
  {
    if s != "" { NothingToTrim(s); }
    hide IsWhite;
  }

  /** The texts that are no URI: a Lightning address, an opaque one, and nothing where what is needed is missing. */
  lemma OtherRails(m: Method, amount: int)
    ensures m.kind == "Lightning" ==> BuildQrForRail(m, amount) == m.lightningAddress
    ensures m.kind == "Ark" && m.opaqueUri != "" ==> BuildQrForRail(m, amount) == m.opaqueUri
    ensures m.kind == "Ark" && m.opaqueUri == "" && !IsNative(m.pubkey) && !IsNative(m.address) && !PrintsUri(m) ==>
              BuildQrForRail(m, amount) == ""
    ensures m.kind == "Onchain" && m.address == "" ==> BuildQrForRail(m, amount) == ""
    ensures m.kind !in ["Lightning", "Onchain", "Ark"] ==> BuildQrForRail(m, amount) == ""
  {
    assert |"Lightning"| == 9 && |"Onchain"| == 7 && |"Ark"| == 3;
  }
}
