/** Exact decimal amounts as digit strings. */
module Decimals {
  import opened Numbers
  import opened Options
  import opened Text

  datatype Parsed = Ok(cents: int) | SyntaxError

  const MAX_DECIMALS := 8
  const MAX_CONVERSION_DECIMALS := 18

  // ---------- Digit strings ----------

  predicate IsDigit(c: char) { '0' <= c <= '9' }

  predicate AllDigits(s: string) { forall c <- s :: IsDigit(c) }

  function Digit(c: char): (n: nat)
    requires IsDigit(c)
    ensures n < 10
  {
    c as int - '0' as int
  }

  function Pow10(n: nat): (p: nat)
    ensures p > 0
  {
    if n == 0 then 1 else 10 * Pow10(n - 1)
  }

  /** The number a digit string spells; none spells 0. */
  function Val(s: string): nat
    requires AllDigits(s)
  {
    if s == "" then 0 else Val(s[..|s| - 1]) * 10 + Digit(s[|s| - 1])
  }

  /** `toString` of a non-negative integer. */
  function ToDigits(n: nat): (s: string)
    ensures AllDigits(s) && s != ""
  {
    var last := [(n % 10 + '0' as int) as char];
    if n < 10 then last else ToDigits(n / 10) + last
  }

  function Zeros(n: nat): (s: string)
    ensures |s| == n && AllDigits(s) && forall i :: 0 <= i < n ==> s[i] == '0'
  {
    seq(n, i => '0')
  }

  function PadStart(s: string, n: nat): string { if |s| < n then Zeros(n - |s|) + s else s }

  function PadEnd(s: string, n: nat): (r: string)
    ensures |r| >= n
  {
    if |s| < n then s + Zeros(n - |s|) else s
  }

  /** `replace(/0+$/, '')`. */
  function TrimZeros(s: string): (r: string)
    ensures |r| <= |s| && r == s[..|r|] && (r != "" ==> r[|r| - 1] != '0')
    ensures forall i :: |r| <= i < |s| ==> s[i] == '0'
  {
    if s != "" && s[|s| - 1] == '0' then TrimZeros(s[..|s| - 1]) else s
  }

  /** No redundant leading zero. */
  predicate Canonical(s: string) { s != "" && AllDigits(s) && (|s| > 1 ==> s[0] != '0') }

  lemma {:induction false} Pow10Add(a: nat, b: nat)
    ensures Pow10(a + b) == Pow10(a) * Pow10(b)
  {
    if b > 0 {
      Pow10Add(a, b - 1);
      assert Pow10(a + b) == 10 * Pow10(a + b - 1);
      assert Pow10(a) * Pow10(b) == 10 * (Pow10(a) * Pow10(b - 1));
    }
  }

  lemma {:induction false} ValSnoc(s: string, c: char)
    requires AllDigits(s) && IsDigit(c)
    ensures AllDigits(s + [c]) && Val(s + [c]) == Val(s) * 10 + Digit(c)
  {
    assert (s + [c])[..|s|] == s;
  }

  lemma {:induction false} ValAppend(a: string, b: string)
    requires AllDigits(a) && AllDigits(b)
    ensures AllDigits(a + b) && Val(a + b) == Val(a) * Pow10(|b|) + Val(b)
  {
    if b == "" {
      assert a + b == a;
    } else {
      var (init, last) := (b[..|b| - 1], b[|b| - 1]);
      assert b == init + [last] && a + b == (a + init) + [last];
      ValAppend(a, init);
      ValSnoc(init, last);
      ValSnoc(a + init, last);
      TenTimes(Val(a), |init|);
      hide Val;
      hide Pow10;
    }
  }

  lemma TenTimes(n: nat, k: nat)
    ensures n * Pow10(k + 1) == n * Pow10(k) * 10
  {
  }

  lemma {:induction false} ValZeros(n: nat)
    ensures Val(Zeros(n)) == 0
  {
    if n > 0 {
      assert Zeros(n)[..n - 1] == Zeros(n - 1);
      ValZeros(n - 1);
    }
  }

  lemma {:induction false} ValBelow(s: string)
    requires AllDigits(s)
    ensures Val(s) < Pow10(|s|)
  {
    if s != "" {
      ValBelow(s[..|s| - 1]);
    }
  }

  lemma {:induction false} ValOfDigits(n: nat)
    ensures Val(ToDigits(n)) == n && Canonical(ToDigits(n)) && (n > 0 ==> ToDigits(n)[0] != '0')
  {
    var s := ToDigits(n);
    if n < 10 {
      assert s[..0] == "";
    } else {
      ValOfDigits(n / 10);
      assert s[..|s| - 1] == ToDigits(n / 10);
    }
  }

  lemma {:induction false} PositiveVal(s: string)
    requires AllDigits(s) && s != "" && s[0] != '0'
    ensures Val(s) > 0
  {
    if |s| > 1 {
      PositiveVal(s[..|s| - 1]);
    }
  }

  lemma {:induction false} DigitsOfVal(s: string)
    requires Canonical(s)
    ensures ToDigits(Val(s)) == s
  {
    var (init, last) := (s[..|s| - 1], s[|s| - 1]);
    if init == "" {
      assert s == [last];
    } else {
      DigitsOfVal(init);
      PositiveVal(init);
      assert Val(s) / 10 == Val(init) && Val(s) % 10 == Digit(last);
      assert s == init + [last];
    }
  }

  // ---------- The conversions ----------

  /** Garbage decimals (negative, fractional, NaN, past the cap) degrade to 0. */
  function ConversionDecimals(d: Number): (n: nat)
    ensures n <= MAX_CONVERSION_DECIMALS
  {
    if d.Finite? && d.r == d.r.Floor as real && 0.0 <= d.r <= MAX_CONVERSION_DECIMALS as real then d.r.Floor else 0
  }

  /** `const [integer, fraction = ''] = s.split('.')`: a third part is ignored. */
  function SplitAtDot(s: string): (string, string) {
    var i := IndexOf(s, '.');
    if i == |s| then (s, "")
    else
      var rest := s[i + 1..];
      (s[..i], rest[..IndexOf(rest, '.')])
  }

  /** `BigInt(s)` for an optionally signed decimal literal. */
  function ParseBigInt(s: string): Parsed {
    if s == "" then Ok(0)
    else
      var digits := if s[0] == '-' || s[0] == '+' then s[1..] else s;
      if digits == "" || !AllDigits(digits) then SyntaxError
      else Ok(if s[0] == '-' then 0 - Val(digits) else Val(digits))
  }

  function Negated(p: Parsed): Parsed { if p.Ok? then Ok(-p.cents) else p }

  function UnitsToCents(units: string, decimals: Number): Parsed {
    if units == "" then Ok(0)
    else
      var d := ConversionDecimals(decimals);
      if units[0] == '-' then Negated(ParseBigInt(DigitsOf(units[1..], d))) else ParseBigInt(DigitsOf(units, d))
  }

  /** The text handed to `BigInt`: the integer part and exactly `d` fraction digits, padded or cut. */
  function DigitsOf(body: string, d: nat): string {
    var (integer, fraction) := SplitAtDot(body);
    (if integer == "" then "0" else integer) + PadEnd(fraction, d)[..d]
  }

  /** A magnitude with `d` decimals: the integer part, and the fraction with its trailing zeros trimmed. */
  function Units(magnitude: nat, d: nat): string {
    var digits := PadStart(ToDigits(magnitude), d + 1);
    var cut := |digits| - d;
    var fraction := TrimZeros(digits[cut..]);
    digits[..cut] + if fraction == "" then "" else "." + fraction
  }

  function CentsToUnits(cents: int, decimals: Number): string {
    var d := ConversionDecimals(decimals);
    if cents < 0 then "-" + Units(-cents, d) else Units(cents, d)
  }

  // ---------- Truncation toward zero of value times 10^d, on every decimal text ----------

  /** `-?I(.F)?` with digit strings I and F, either possibly empty. */
  function DecimalText(negative: bool, integer: string, dot: bool, fraction: string): string
    requires AllDigits(integer) && AllDigits(fraction) && (!dot ==> fraction == "")
  {
    Signed(negative, integer) + Tail(dot, fraction)
  }

  function Signed(negative: bool, integer: string): string { if negative then "-" + integer else integer }

  function Tail(dot: bool, fraction: string): string { if dot then "." + fraction else "" }

  /** `q` is `n / 10^k`, times `10^d`, rounded down. */
  ghost predicate Truncates(q: nat, n: nat, k: nat, d: nat) {
    q * Pow10(k) <= n * Pow10(d) < (q + 1) * Pow10(k)
  }

  lemma SplitOfText(whole: string, dot: bool, fraction: string)
    requires '.' !in whole && '.' !in fraction && (!dot ==> fraction == "")
    ensures SplitAtDot(whole + Tail(dot, fraction)) == (whole, fraction)
  {
    var t := whole + Tail(dot, fraction);
    if dot {
      IndexOfSuffix(whole, '.', "." + fraction);
      assert t[|whole| + 1..] == fraction && t[..|whole|] == whole;
      IndexOfSuffix(fraction, '.', "");
      assert fraction + "" == fraction;
    } else {
      assert t == whole;
      IndexOfSuffix(whole, '.', "");
    }
  }

  lemma {:induction false} ParseDigits(s: string)
    requires AllDigits(s)
    ensures ParseBigInt(s) == Ok(Val(s))
  {
    if s != "" { assert s[0] in s; }
  }

  /** Padding or cutting a fraction to `d` digits truncates. */
  lemma {:induction false} FractionToDigits(integer: string, fraction: string, d: nat)
    requires AllDigits(integer) && AllDigits(fraction)
    ensures var f := PadEnd(fraction, d)[..d];
            AllDigits(integer + f) && Truncates(Val(integer + f), Val(integer + fraction), |fraction|, d)
  {
    hide Val;
    hide Pow10;
    var k := |fraction|;
    ValAppend(integer, fraction);
    var n := Val(integer + fraction);
    if k <= d {
      var pad := Zeros(d - k);
      assert PadEnd(fraction, d)[..d] == fraction + pad;
      assert integer + (fraction + pad) == (integer + fraction) + pad;
      ValAppend(integer + fraction, pad);
      ValZeros(d - k);
      Pow10Add(d - k, k);
      TruncatesExactly(n, Pow10(d - k), Pow10(k));
    } else {
      var (f, cut) := (fraction[..d], fraction[d..]);
      assert PadEnd(fraction, d)[..d] == f;
      assert integer + fraction == (integer + f) + cut;
      ValAppend(integer, f);
      ValAppend(integer + f, cut);
      ValBelow(cut);
      Pow10Add(k - d, d);
      TruncatesDown(n, Val(integer + f), Val(cut), Pow10(k - d), Pow10(d));
    }
  }

  lemma TruncatesExactly(n: nat, a: nat, b: nat)
    requires b > 0
    ensures n * a * b <= n * (a * b) < (n * a + 1) * b
  {
  }

  lemma TruncatesDown(n: nat, q: nat, r: nat, a: nat, b: nat)
    requires n == q * a + r && r < a && b > 0
    ensures q * (a * b) <= n * b < (q + 1) * (a * b)
  {
  }

  lemma ZeroDigit()
    ensures Val("0") == 0 && AllDigits("0")
  {
  }

  /** A leading "0" in place of an empty integer part changes nothing. */
  lemma ParseJoined(integer: string, f: string)
    requires AllDigits(integer + f)
    ensures ParseBigInt((if integer == "" then "0" else integer) + f) == Ok(Val(integer + f))
  {
    if integer == "" {
      assert "" + f == f;
      ZeroDigit();
      ValAppend("0", f);
      ParseDigits("0" + f);
    } else {
      ParseDigits(integer + f);
    }
  }

  lemma SignOfText(negative: bool, integer: string, dot: bool, fraction: string)
    requires AllDigits(integer) && AllDigits(fraction) && (!dot ==> fraction == "")
    ensures var (t, body) := (DecimalText(negative, integer, dot, fraction),
                                 DecimalText(false, integer, dot, fraction));
            body == integer + Tail(dot, fraction) && '.' !in Signed(negative, integer) &&
            if negative then t != "" && t[0] == '-' && t[1..] == body
            else t == body && (t == "" <==> integer == "" && !dot) && (t != "" ==> t[0] != '-')
  {
    var t := DecimalText(negative, integer, dot, fraction);
    if negative {
      assert t == "-" + (integer + Tail(dot, fraction));
    } else if integer != "" {
      assert integer[0] in integer;
    }
  }

  /** On every decimal text: the digits kept, under the sign. */
  lemma UnitsToCentsOfText(negative: bool, integer: string, dot: bool, fraction: string, decimals: Number)
    requires AllDigits(integer) && AllDigits(fraction) && (!dot ==> fraction == "")
    ensures var digits := integer + PadEnd(fraction, ConversionDecimals(decimals))[..ConversionDecimals(decimals)];
            AllDigits(digits) &&
            UnitsToCents(DecimalText(negative, integer, dot, fraction), decimals) ==
              if negative || integer != "" || dot then Ok(if negative then 0 - Val(digits) else Val(digits)) else Ok(0)
  {
    hide AllDigits;
    hide DecimalText;
    hide Signed;
    hide Tail;
    hide SplitAtDot;
    hide Val;
    hide PadEnd;
    hide ConversionDecimals;
    hide Truncates;
    var d := ConversionDecimals(decimals);
    NoDotIn(integer);
    NoDotIn(fraction);
    SplitOfText(integer, dot, fraction);
    SignOfText(negative, integer, dot, fraction);
    FractionToDigits(integer, fraction, d);
    ParseJoined(integer, PadEnd(fraction, d)[..d]);
    hide ParseBigInt;
  }

  lemma NoDotIn(s: string)
    requires AllDigits(s)
    ensures '.' !in s
  {
  }

  /** On every decimal text `unitsToCents` succeeds, with the value times 10^d truncated toward zero. */
  lemma {:induction false} UnitsToCentsTruncates(negative: bool, integer: string, dot: bool, fraction: string,
      decimals: Number)
    requires AllDigits(integer) && AllDigits(fraction) && (!dot ==> fraction == "")
    ensures var r := UnitsToCents(DecimalText(negative, integer, dot, fraction), decimals);
            r.Ok? && (if negative then r.cents <= 0 else r.cents >= 0) &&
            Truncates(if r.cents < 0 then -r.cents else r.cents,
                      Val(integer + fraction), |fraction|, ConversionDecimals(decimals))
  {
    UnitsToCentsOfText(negative, integer, dot, fraction, decimals);
    FractionToDigits(integer, fraction, ConversionDecimals(decimals));
    if !negative && integer == "" && !dot {
      assert integer + fraction == "";
    }
  }

  // ---------- The two conversions are inverse ----------

  lemma {:induction false} TrimThenPad(s: string)
    ensures PadEnd(TrimZeros(s), |s|) == s
  {
    hide TrimZeros;
    var n := |TrimZeros(s)|;
    assert s[n..] == Zeros(|s| - n);
    assert s == s[..n] + s[n..];
  }

  lemma {:induction false} PadStartKeeps(magnitude: nat, d: nat)
    ensures var digits := PadStart(ToDigits(magnitude), d + 1);
            |digits| > d && AllDigits(digits) && Val(digits) == magnitude && Canonical(digits[..|digits| - d])
  {
    ValOfDigits(magnitude);
    var plain := ToDigits(magnitude);
    if |plain| < d + 1 {
      ValAppend(Zeros(d + 1 - |plain|), plain);
      ValZeros(d + 1 - |plain|);
    }
  }

  /** The parts of a rendered magnitude: a canonical integer, and a fraction of at most `d` digits not ending in 0. */
  lemma UnitsParts(magnitude: nat, d: nat) returns (integer: string, fraction: string)
    ensures Canonical(integer) && AllDigits(fraction) && |fraction| <= d
    ensures fraction != "" ==> fraction[|fraction| - 1] != '0'
    ensures Units(magnitude, d) == DecimalText(false, integer, fraction != "", fraction)
    ensures AllDigits(integer + PadEnd(fraction, d)) && Val(integer + PadEnd(fraction, d)) == magnitude
  {
    PadStartKeeps(magnitude, d);
    hide ToDigits;
    hide Val;
    hide PadStart;
    hide PadEnd;
    hide Canonical;
    hide AllDigits;
    hide TrimZeros;
    var digits := PadStart(ToDigits(magnitude), d + 1);
    var cut := |digits| - d;
    integer, fraction := digits[..cut], TrimZeros(digits[cut..]);
    CanonicalNotEmpty(integer);
    TrimThenPad(digits[cut..]);
    DigitsWithin(digits, cut, |fraction|);
    Rejoin(digits, cut);
  }

  lemma DigitsWithin(s: string, i: nat, n: nat)
    requires AllDigits(s) && i + n <= |s|
    ensures AllDigits(s[i..][..n])
  {
  }

  /** The same for a signed amount. */
  lemma CentsParts(cents: int, decimals: Number) returns (integer: string, fraction: string)
    ensures Canonical(integer) && AllDigits(fraction) && |fraction| <= ConversionDecimals(decimals)
    ensures fraction != "" ==> fraction[|fraction| - 1] != '0'
    ensures CentsToUnits(cents, decimals) == DecimalText(cents < 0, integer, fraction != "", fraction)
    ensures var digits := integer + PadEnd(fraction, ConversionDecimals(decimals));
            AllDigits(digits) && Val(digits) == if cents < 0 then -cents else cents
  {
    hide Val;
    hide PadEnd;
    hide Units;
    hide ConversionDecimals;
    hide AllDigits;
    hide Canonical;
    hide DecimalText;
    integer, fraction := UnitsParts(if cents < 0 then -cents else cents, ConversionDecimals(decimals));
    CanonicalNotEmpty(integer);
    NegativeText(integer, fraction != "", fraction);
  }

  lemma NegativeText(integer: string, dot: bool, fraction: string)
    requires AllDigits(integer) && AllDigits(fraction) && (!dot ==> fraction == "")
    ensures DecimalText(true, integer, dot, fraction) == "-" + DecimalText(false, integer, dot, fraction)
  {
  }

  /** For every integer amount and every decimals value, garbage included, nothing is lost. */
  lemma CentsRoundTrip(cents: int, decimals: Number)
    ensures UnitsToCents(CentsToUnits(cents, decimals), decimals) == Ok(cents)
  {
    hide Val;
    hide UnitsToCents;
    hide CentsToUnits;
    hide PadEnd;
    hide DecimalText;
    hide ConversionDecimals;
    hide AllDigits;
    hide Canonical;
    var d := ConversionDecimals(decimals);
    var integer, fraction := CentsParts(cents, decimals);
    PadEndWhole(fraction, d);
    CanonicalNotEmpty(integer);
    UnitsToCentsOfText(cents < 0, integer, fraction != "", fraction, decimals);
  }

  lemma CanonicalNotEmpty(s: string)
    requires Canonical(s)
    ensures s != "" && AllDigits(s)
  {
  }

  lemma PadEndWhole(fraction: string, d: nat)
    requires |fraction| <= d
    ensures PadEnd(fraction, d)[..d] == PadEnd(fraction, d)
  {
  }

  // ---------- Display ----------

  /** The English digit grouping of `toLocaleString`. */
  function Grouped(s: string): string {
    if |s| <= 3 then s else Grouped(s[..|s| - 3]) + "," + s[|s| - 3..]
  }

  function Filter(s: string, keep: char -> bool): string {
    if s == "" then "" else (if keep(s[0]) then [s[0]] else "") + Filter(s[1..], keep)
  }

  predicate NotComma(c: char) { c != ',' }

  /** What `replace(/[^0-9-]+/g, '')` keeps. */
  predicate IntegerChar(c: char) { IsDigit(c) || c == '-' }

  /** `BigInt(n).toLocaleString()`. */
  function LocaleInteger(n: int): string {
    if n < 0 then "-" + Grouped(ToDigits(-n)) else Grouped(ToDigits(n))
  }

  /** `prettyAssetNumber` on a plain decimal text; `None` is the SyntaxError `BigInt` throws. */
  function PrettyAssetNumber(num: string, maximumFractionDigits: nat): Option<string> {
    var (whole, fraction) := SplitAtDot(num);
    var integer := Filter(whole, IntegerChar);
    var padded := PadEnd(fraction, MAX_DECIMALS);
    var shown := TrimZeros(if maximumFractionDigits < |padded| then padded[..maximumFractionDigits] else padded);
    match ParseBigInt(integer)
    case SyntaxError => None
    case Ok(n) =>
      Some((if integer == "-0" then "-" else "") + LocaleInteger(n) + if shown == "" then "" else "." + shown)
  }

  /** `prettyAssetAmount` without `tidy`. */
  function PrettyAssetAmount(cents: int, decimals: Number): Option<string> {
    var d := ConversionDecimals(decimals);
    PrettyAssetNumber(CentsToUnits(cents, Finite(d as real)), d)
  }

  function Ungrouped(s: string): string { Filter(s, NotComma) }

  lemma {:induction false} FilterAppend(a: string, b: string, keep: char -> bool)
    ensures Filter(a + b, keep) == Filter(a, keep) + Filter(b, keep)
    decreases a
  {
    if a == "" {
      assert a + b == b;
    } else {
      var rest := a[1..];
      var head := if keep(a[0]) then [a[0]] else "";
      assert (a + b)[1..] == rest + b && (a + b)[0] == a[0];
      assert Filter(a + b, keep) == head + Filter(rest + b, keep);
      FilterAppend(rest, b, keep);
      assert head + (Filter(rest, keep) + Filter(b, keep)) == (head + Filter(rest, keep)) + Filter(b, keep);
    }
  }

  lemma {:induction false} FilterKeepsAll(s: string, keep: char -> bool)
    requires forall c <- s :: keep(c)
    ensures Filter(s, keep) == s
  {
    if s != "" {
      assert s[0] in s;
      FilterKeepsAll(s[1..], keep);
    }
  }

  lemma NoComma(s: string)
    requires AllDigits(s)
    ensures Ungrouped(s) == s && Ungrouped(",") == ""
  {
    FilterKeepsAll(s, NotComma);
    assert ","[1..] == "";
  }

  /** Grouping only adds commas. */
  lemma {:induction false} UngroupGrouped(s: string)
    requires AllDigits(s)
    ensures Ungrouped(Grouped(s)) == s
  {
    hide Filter;
    if |s| <= 3 {
      NoComma(s);
    } else {
      var (high, low) := (s[..|s| - 3], s[|s| - 3..]);
      assert AllDigits(high) && AllDigits(low);
      UngroupGrouped(high);
      NoComma(low);
      FilterAppend(Grouped(high) + ",", low, NotComma);
      FilterAppend(Grouped(high), ",", NotComma);
      assert s == high + low;
    }
  }

  lemma {:induction false} TrimPadded(fraction: string, n: nat)
    requires fraction == "" || fraction[|fraction| - 1] != '0'
    ensures TrimZeros(fraction + Zeros(n)) == fraction
  {
    var t := fraction + Zeros(n);
    if n > 0 {
      assert t[..|t| - 1] == fraction + Zeros(n - 1);
      TrimPadded(fraction, n - 1);
    } else {
      assert t == fraction;
    }
  }

  /** Padding to eight digits, cutting to `d` and trimming leaves a trimmed fraction of at most `d` digits alone. */
  lemma ShownFraction(fraction: string, d: nat)
    requires |fraction| <= d && (fraction == "" || fraction[|fraction| - 1] != '0')
    ensures var padded := PadEnd(fraction, MAX_DECIMALS);
            TrimZeros(if d < |padded| then padded[..d] else padded) == fraction
  {
    var padded := PadEnd(fraction, MAX_DECIMALS);
    var cut := if d < |padded| then padded[..d] else padded;
    assert cut == fraction + Zeros(|cut| - |fraction|);
    TrimPadded(fraction, |cut| - |fraction|);
  }

  /** Rendering an integer and removing the commas gives its digits, under its sign. */
  lemma {:induction false} UngroupedInteger(n: int)
    ensures Ungrouped(LocaleInteger(n)) == Signed(n < 0, ToDigits(if n < 0 then -n else n))
  {
    var digits := ToDigits(if n < 0 then -n else n);
    UngroupGrouped(digits);
    FilterAppend("-", Grouped(digits), NotComma);
    FilterKeepsAll("-", NotComma);
  }

  /** The integer part as displayed, commas aside, the sign of a bare fraction included. */
  lemma ShownInteger(negative: bool, integer: string)
    requires Canonical(integer)
    ensures var whole := Signed(negative, integer);
            var p := ParseBigInt(whole);
            Filter(whole, IntegerChar) == whole && p.Ok? &&
            Ungrouped((if whole == "-0" then "-" else "") + LocaleInteger(p.cents)) == whole
  {
    CanonicalNotEmpty(integer);
    SignedChars(negative, integer);
    ParseSigned(negative, integer);
    hide ParseBigInt;
    hide Filter;
    hide LocaleInteger;
    hide ToDigits;
    hide Val;
    hide Signed;
    if integer == "0" {
      ShownZero(negative);
    } else {
      hide AllDigits;
      NotMinusZero(negative, integer);
      DigitsOfVal(integer);
      hide Canonical;
      var n := if negative then 0 - Val(integer) else Val(integer);
      UngroupedInteger(n);
      assert "" + LocaleInteger(n) == LocaleInteger(n);
    }
  }

  lemma SignedChars(negative: bool, integer: string)
    requires AllDigits(integer)
    ensures Filter(Signed(negative, integer), IntegerChar) == Signed(negative, integer)
  {
    FilterKeepsAll(Signed(negative, integer), IntegerChar);
  }

  lemma {:induction false} NotMinusZero(negative: bool, integer: string)
    requires Canonical(integer) && integer != "0"
    ensures Signed(negative, integer) != "-0" && Val(integer) > 0
  {
    if negative { assert Signed(negative, integer)[1..] == integer; }
    if |integer| == 1 { assert integer == [integer[0]]; }
    PositiveVal(integer);
  }

  lemma ShownZero(negative: bool)
    ensures Val("0") == 0 && Signed(false, "0") == "0" && Signed(true, "0") == "-0"
    ensures Ungrouped((if negative then "-" else "") + LocaleInteger(0)) == Signed(negative, "0")
  {
    ZeroDigit();
    UngroupedInteger(0);
    UngroupedSign(LocaleInteger(0));
    hide Filter;
    hide LocaleInteger;
    DigitsOfVal("0");
    hide ToDigits;
    assert "" + LocaleInteger(0) == LocaleInteger(0);
  }

  lemma UngroupedSign(s: string)
    ensures Ungrouped("-" + s) == "-" + Ungrouped(s)
  {
    FilterAppend("-", s, NotComma);
    FilterKeepsAll("-", NotComma);
  }

  lemma {:induction false} ParseSigned(negative: bool, integer: string)
    requires AllDigits(integer) && integer != ""
    ensures ParseBigInt(Signed(negative, integer)) == Ok(if negative then 0 - Val(integer) else Val(integer))
  {
    if negative {
      assert ("-" + integer)[1..] == integer;
    } else {
      ParseDigits(integer);
    }
  }

  lemma {:induction false} PrettyOfText(whole: string, fraction: string, d: nat)
    requires '.' !in whole && '.' !in fraction && ParseBigInt(whole).Ok? && Filter(whole, IntegerChar) == whole
    requires |fraction| <= d && (fraction == "" || fraction[|fraction| - 1] != '0')
    ensures PrettyAssetNumber(whole + Tail(fraction != "", fraction), d) ==
            Some((if whole == "-0" then "-" else "") + LocaleInteger(ParseBigInt(whole).cents) +
              Tail(fraction != "", fraction))
  {
    SplitOfText(whole, fraction != "", fraction);
    ShownFraction(fraction, d);
    hide SplitAtDot;
    hide Filter;
    hide ParseBigInt;
    hide LocaleInteger;
  }

  /** The displayed amount with its commas removed is exactly `centsToUnits`, negative fractions included. */
  lemma PrettyIsExact(cents: int, decimals: Number)
    ensures PrettyAssetAmount(cents, decimals).Some?
    ensures Ungrouped(PrettyAssetAmount(cents, decimals).value) == CentsToUnits(cents, decimals)
  {
    var d := ConversionDecimals(decimals);
    assert ConversionDecimals(Finite(d as real)) == d;
    var negative := cents < 0;
    var integer, fraction := CentsParts(cents, decimals);
    var (whole, tail) := (Signed(negative, integer), Tail(fraction != "", fraction));
    SignOfText(negative, integer, fraction != "", fraction);
    assert CentsToUnits(cents, decimals) == whole + tail;
    hide CentsToUnits;
    ShownInteger(negative, integer);
    PrettyOfText(whole, fraction, d);
    hide Filter;
    hide ParseBigInt;
    hide Units;
    hide ConversionDecimals;
    hide PrettyAssetNumber;
    hide LocaleInteger;
    var shown := (if whole == "-0" then "-" else "") + LocaleInteger(ParseBigInt(whole).cents);
    assert PrettyAssetAmount(cents, decimals) == Some(shown + tail);
    UngroupedTail(shown, fraction);
  }

  /** The displayed integer part is the digits, grouped, under the sign. */
  lemma {:induction false} GroupedInteger(negative: bool, integer: string)
    requires Canonical(integer)
    ensures var p := ParseBigInt(Signed(negative, integer));
            p.Ok? && (if Signed(negative, integer) == "-0" then "-" else "") + LocaleInteger(p.cents) ==
                     Signed(negative, Grouped(integer))
  {
    CanonicalNotEmpty(integer);
    ParseSigned(negative, integer);
    DigitsOfVal(integer);
    if integer == "0" {
      ZeroDigit();
      assert Grouped("0") == "0";
    } else {
      NotMinusZero(negative, integer);
      assert "" + LocaleInteger(if negative then 0 - Val(integer) else Val(integer)) ==
             LocaleInteger(if negative then 0 - Val(integer) else Val(integer));
    }
    hide Grouped;
    hide ParseBigInt;
    hide ToDigits;
    hide Val;
  }

  /** What is displayed is the plain text with the digits before the point grouped, and nothing else changed. */
  lemma PrettyIsGrouped(cents: int, decimals: Number) returns (integer: string, fraction: string)
    ensures Canonical(integer) && AllDigits(fraction)
    ensures CentsToUnits(cents, decimals) == DecimalText(cents < 0, integer, fraction != "", fraction)
    ensures PrettyAssetAmount(cents, decimals) ==
            Some(Signed(cents < 0, Grouped(integer)) + Tail(fraction != "", fraction))
  {
    var d := ConversionDecimals(decimals);
    assert ConversionDecimals(Finite(d as real)) == d;
    integer, fraction := CentsParts(cents, decimals);
    var whole := Signed(cents < 0, integer);
    SignOfText(cents < 0, integer, fraction != "", fraction);
    ShownInteger(cents < 0, integer);
    GroupedInteger(cents < 0, integer);
    NoDotIn(fraction);
    PrettyOfText(whole, fraction, d);
    hide Filter;
    hide ParseBigInt;
    hide Units;
    hide ConversionDecimals;
    hide PrettyAssetNumber;
    hide LocaleInteger;
    hide Grouped;
    hide AllDigits;
    hide Canonical;
  }

  lemma UngroupedTail(shown: string, fraction: string)
    requires AllDigits(fraction)
    ensures Ungrouped(shown + Tail(fraction != "", fraction)) == Ungrouped(shown) + Tail(fraction != "", fraction)
  {
    hide Filter;
    var tail := Tail(fraction != "", fraction);
    FilterAppend(shown, tail, NotComma);
    FilterKeepsAll(tail, NotComma);
  }

  // ---------- Which digits ----------

  /** A digit spells its place in "0123456789", and each further place is ten times the last. */
  lemma {:induction false} ValOfOne(n: nat)
    requires n < 10
    ensures var s := ["0123456789"[n]];
            AllDigits(s) && Val(s) == n && ToDigits(n) == s && Pow10(1) == 10
  {
    assert ["0123456789"[n]][..0] == "";
  }

  /** Digit `i` from the right is that of `10^i`, and there are as many as the number needs. */
  lemma {:induction false} DigitAt(n: nat, i: nat)
    requires i < |ToDigits(n)|
    ensures ToDigits(n)[|ToDigits(n)| - 1 - i] as int == 48 + n / Pow10(i) % 10
    ensures |ToDigits(n)| > 1 ==> Pow10(|ToDigits(n)| - 1) <= n
  {
    if n >= 10 {
      var (s, rest) := (ToDigits(n), ToDigits(n / 10));
      DigitAt(n / 10, if i == 0 then 0 else i - 1);
      if i > 0 {
        assert s[|s| - 1 - i] == rest[|rest| - i];
        Shifted(n, Pow10(i - 1));
      }
      if |rest| == 1 { assert Pow10(1) == 10; }
    }
  }

  lemma Shifted(n: nat, p: nat)
    requires p > 0
    ensures n / 10 / p == n / (10 * p)
  {
    var q := n / 10 / p;
    assert n == n / 10 * 10 + n % 10;
    assert n / 10 == q * p + n / 10 % p;
    assert n == q * (10 * p) + (n / 10 % p * 10 + n % 10);
    var r := n / 10 % p * 10 + n % 10;
    assert 0 <= r < 10 * p;
    DivisionIs(n, 10 * p, q, r);
  }

  lemma DivisionIs(n: nat, d: nat, q: nat, r: nat)
    requires d > 0 && n == q * d + r && r < d
    ensures n / d == q
  {
    var k := n / d - q;
    assert k * d == r - n % d by { assert n == n / d * d + n % d; }
    assert k > 0 ==> k * d >= d;
    assert k < 0 ==> k * d <= 0 - d;
  }

  lemma BehindComma(high: string, low: string, i: nat)
    requires |low| == 3 && i < |high| + 4
    ensures var g := high + "," + low;
            |g| == |high| + 4 &&
            g[|g| - 1 - i] == if i < 3 then low[2 - i] else if i == 3 then ',' else high[|high| + 3 - i]
  {
  }

  lemma DigitsApart(s: string, k: nat)
    requires AllDigits(s) && k < |s|
    ensures s[k] != ',' && AllDigits(s[..k])
  {
    assert s[k] in s;
  }

  lemma {:induction false} GroupedOnce(s: string)
    requires AllDigits(s) && |s| > 3
    ensures var (rest, low) := (s[..|s| - 3], s[|s| - 3..]);
            Grouped(s) == Grouped(rest) + "," + low && AllDigits(rest) && |low| == 3 && ',' !in low
  {
    DigitsApart(s, |s| - 3);
    var low := s[|s| - 3..];
    forall c <- low ensures c != ',' {
      assert c in s;
    }
  }

  lemma {:induction false} CommaIn(s: string, k: nat, r: nat)
    requires AllDigits(s) && r < 4 && 4 * k + r < |Grouped(s)|
    ensures Grouped(s)[|Grouped(s)| - 1 - (4 * k + r)] == ',' <==> r == 3
    decreases |s|
  {
    if |s| <= 3 {
      DigitsApart(s, |s| - 1 - (4 * k + r));
    } else {
      var (rest, low) := (s[..|s| - 3], s[|s| - 3..]);
      GroupedOnce(s);
      hide Grouped;
      hide AllDigits;
      BehindComma(Grouped(rest), low, 4 * k + r);
      if k > 0 { CommaIn(rest, k - 1, r); }
    }
  }

  /** A comma stands before every third digit from the right, and nowhere else. */
  lemma {:induction false} CommaAt(s: string, i: nat)
    requires AllDigits(s) && i < |Grouped(s)|
    ensures Grouped(s)[|Grouped(s)| - 1 - i] == ',' <==> i % 4 == 3
  {
    hide Grouped;
    CommaIn(s, i / 4, i % 4);
  }

  /** A second point and what follows it are ignored. */
  lemma ThirdPart(a: string, b: string, c: string)
    requires '.' !in a && '.' !in b
    ensures SplitAtDot(a + "." + b + "." + c) == (a, b)
  {
    var tail := "." + b + "." + c;
    assert a + "." + b + "." + c == a + tail;
    IndexOfSuffix(a, '.', tail);
    assert (a + tail)[|a| + 1..] == b + ("." + c) && (a + tail)[..|a|] == a;
    IndexOfSuffix(b, '.', "." + c);
    assert (b + ("." + c))[..|b|] == b;
  }

  /** Decimals from 0 to 18 count, anything else is taken for 0. */
  lemma ConversionIs(d: Number, n: nat)
    ensures n <= 18 ==> ConversionDecimals(Finite(n as real)) == n
    ensures d.NotFinite? || d.r < 0.0 || d.r > 18.0 || n as real < d.r < n as real + 1.0 ==> ConversionDecimals(d) == 0
  {
  }

  /** `prettyAssetNumber` of a decimal shows no more than `most` digits of its fraction, cut and not rounded. */
  lemma {:induction false} PrettyCuts(negative: bool, integer: string, fraction: string, most: nat)
    requires Canonical(integer) && AllDigits(fraction) && |fraction| <= 8
    ensures var shown := TrimZeros(if most < |fraction| then fraction[..most] else fraction);
            var r := PrettyAssetNumber(DecimalText(negative, integer, fraction != "", fraction), most);
            r.Some? && Ungrouped(r.value) == Signed(negative, integer) + Tail(shown != "", shown)
  {
    SignOfText(negative, integer, fraction != "", fraction);
    NoDotIn(fraction);
    SplitOfText(Signed(negative, integer), fraction != "", fraction);
    ShownInteger(negative, integer);
    TrimOfPadded(fraction, most);
    var padded := PadEnd(fraction, MAX_DECIMALS);
    var shown := TrimZeros(if most < |padded| then padded[..most] else padded);
    var whole := Signed(negative, integer);
    hide PadEnd;
    hide TrimZeros;
    hide Filter;
    hide ParseBigInt;
    hide LocaleInteger;
    hide SplitAtDot;
    hide Canonical;
    assert AllDigits(shown);
    UngroupedTail((if whole == "-0" then "-" else "") + LocaleInteger(ParseBigInt(whole).cents), shown);
  }

  lemma {:induction false} TrimOfPadded(fraction: string, most: nat)
    requires |fraction| <= 8 && AllDigits(fraction)
    ensures var padded := PadEnd(fraction, MAX_DECIMALS);
            var shown := TrimZeros(if most < |padded| then padded[..most] else padded);
            shown == TrimZeros(if most < |fraction| then fraction[..most] else fraction) && AllDigits(shown)
  {
    var padded := PadEnd(fraction, MAX_DECIMALS);
    if most < |fraction| {
      assert padded[..most] == fraction[..most];
    } else {
      var cut := if most < |padded| then padded[..most] else padded;
      assert cut == fraction + Zeros(|cut| - |fraction|);
      TrimMore(fraction, |cut| - |fraction|);
    }
  }

  lemma {:induction false} TrimMore(s: string, n: nat)
    ensures TrimZeros(s + Zeros(n)) == TrimZeros(s)
  {
    if n == 0 {
      assert s + Zeros(0) == s;
    } else {
      var t := s + Zeros(n);
      assert t[..|t| - 1] == s + Zeros(n - 1);
      TrimMore(s, n - 1);
    }
  }
}
