/** The amount keypad: the text that key presses and Max presses build up. */
module Keyboard {
  import opened Decimals
  import opened Numbers

  datatype Event = Key(k: char) | Max(balance: nat)

  /** The keys of the pad: ten digits, the point, and 'x' for backspace. */
  predicate IsKey(k: char) { IsDigit(k) || k == '.' || k == 'x' }

  /** `handleKeyPress`, for a mode allowing `maxDecimals` fraction digits. */
  function Press(text: string, k: char, maxDecimals: nat): string {
    if k == '.' then
      if maxDecimals == 0 || '.' in text then text else if text == "" then "0." else text + "."
    else if k == 'x' then
      if text == "" then text else text[..|text| - 1]
    else if text == "0" then
      if k == '0' then text else [k]
    else
      var newText := text + [k];
      if '.' in newText && |SplitAtDot(newText).1| > maxDecimals then text else newText
  }

  /** One press in asset mode; Max fills in the whole balance. */
  function Apply(text: string, e: Event, decimals: nat): string {
    match e
    case Key(k) => Press(text, k, decimals)
    case Max(balance) => CentsToUnits(balance, Finite(decimals as real))
  }

  function Run(es: seq<Event>, decimals: nat): string {
    if es == [] then "" else Apply(Run(es[..|es| - 1], decimals), es[|es| - 1], decimals)
  }

  ghost predicate OnlyKeys(es: seq<Event>) {
    forall e <- es :: e.Key? ==> IsKey(e.k)
  }

  /** The parts of a decimal in progress. */
  datatype Parts = Parts(integer: string, dot: bool, fraction: string)

  function TextOf(p: Parts): string { p.integer + Tail(p.dot, p.fraction) }

  /** No redundant leading zero, at most one point, at most `decimals` fraction digits. */
  ghost predicate WellFormed(p: Parts, decimals: nat) {
    Canonical(p.integer) && AllDigits(p.fraction) && |p.fraction| <= decimals && (!p.dot ==> p.fraction == "")
  }

  ghost predicate Good(text: string, decimals: nat) {
    text == "" || exists p :: WellFormed(p, decimals) && TextOf(p) == text
  }

  lemma PointIn(p: Parts, decimals: nat)
    requires WellFormed(p, decimals)
    ensures '.' in TextOf(p) <==> p.dot
  {
  }

  lemma DigitKeepsGood(p: Parts, k: char, decimals: nat)
    requires WellFormed(p, decimals) && IsDigit(k) && TextOf(p) != "0"
    ensures Good(Press(TextOf(p), k, decimals), decimals)
  {
    var text := TextOf(p);
    PointIn(p, decimals);
    if p.dot {
      var q := Parts(p.integer, true, p.fraction + [k]);
      assert TextOf(q) == text + [k];
      SplitOfText(p.integer, true, q.fraction);
      assert |q.fraction| <= decimals ==> WellFormed(q, decimals);
      assert WellFormed(p, decimals);
    } else {
      var q := Parts(p.integer + [k], false, "");
      assert text == p.integer && TextOf(q) == text + [k];
      assert WellFormed(q, decimals);
    }
  }

  lemma BackspaceKeepsGood(p: Parts, decimals: nat)
    requires WellFormed(p, decimals)
    ensures Good(Press(TextOf(p), 'x', decimals), decimals)
  {
    var text := TextOf(p);
    var shorter := text[..|text| - 1];
    var q :=
      if !p.dot then Parts(p.integer[..|p.integer| - 1], false, "")
      else if p.fraction == "" then Parts(p.integer, false, "")
      else Parts(p.integer, true, p.fraction[..|p.fraction| - 1]);
    assert shorter == TextOf(q);
    if shorter != "" { assert WellFormed(q, decimals); }
  }

  lemma PressKeepsGood(text: string, k: char, decimals: nat)
    requires Good(text, decimals) && IsKey(k)
    ensures Good(Press(text, k, decimals), decimals)
  {
    if text == "" || (text == "0" && IsDigit(k)) {
      var q := if k == '.' then Parts("0", true, "") else Parts([k], false, "");
      if IsDigit(k) || (k == '.' && decimals > 0) {
        assert WellFormed(q, decimals);
        assert TextOf(q) == if k == '.' then "0." else [k];
      }
    } else {
      var p :| WellFormed(p, decimals) && TextOf(p) == text;
      if k == 'x' {
        BackspaceKeepsGood(p, decimals);
      } else if k == '.' {
        PointIn(p, decimals);
        var q := Parts(p.integer, true, "");
        assert WellFormed(q, decimals) && (!p.dot ==> TextOf(q) == text + ".");
      } else {
        DigitKeepsGood(p, k, decimals);
      }
    }
  }

  lemma MaxIsGood(balance: nat, decimals: nat)
    requires decimals <= MAX_CONVERSION_DECIMALS
    ensures Good(CentsToUnits(balance, Finite(decimals as real)), decimals)
  {
    var integer, fraction := CentsParts(balance, Finite(decimals as real));
    var p := Parts(integer, fraction != "", fraction);
    assert WellFormed(p, decimals) && TextOf(p) == CentsToUnits(balance, Finite(decimals as real));
  }

  lemma {:induction false} RunIsGood(es: seq<Event>, decimals: nat)
    requires OnlyKeys(es) && decimals <= MAX_CONVERSION_DECIMALS
    ensures Good(Run(es, decimals), decimals)
  {
    if es != [] {
      RunIsGood(es[..|es| - 1], decimals);
      match es[|es| - 1]
      case Key(k) => PressKeepsGood(Run(es[..|es| - 1], decimals), k, decimals);
      case Max(balance) => MaxIsGood(balance, decimals);
    }
  }

  /** After any presses the text converts without an exception, and exactly: nothing is cut off. */
  lemma {:induction false} TextConvertsExactly(es: seq<Event>, decimals: nat)
    requires OnlyKeys(es) && decimals <= MAX_CONVERSION_DECIMALS
    ensures var (text, r) := (Run(es, decimals), UnitsToCents(Run(es, decimals), Finite(decimals as real)));
            if text == "" then r == Ok(0)
            else exists p :: WellFormed(p, decimals) && TextOf(p) == text &&
                   r.Ok? && r.cents * Pow10(|p.fraction|) == Val(p.integer + p.fraction) * Pow10(decimals)
  {
    RunIsGood(es, decimals);
    if Run(es, decimals) != "" {
      var p :| WellFormed(p, decimals) && TextOf(p) == Run(es, decimals);
      UnitsToCentsOfText(false, p.integer, p.dot, p.fraction, Finite(decimals as real));
      PaddedValue(p.integer, p.fraction, decimals);
    }
  }

  lemma {:induction false} PaddedValue(integer: string, fraction: string, d: nat)
    requires AllDigits(integer) && AllDigits(fraction) && |fraction| <= d
    ensures var digits := integer + PadEnd(fraction, d)[..d];
            AllDigits(digits) && AllDigits(integer + fraction) &&
            Val(digits) * Pow10(|fraction|) == Val(integer + fraction) * Pow10(d)
  {
    hide Val;
    hide Pow10;
    var k := |fraction|;
    ValAppend(integer, fraction);
    assert integer + (fraction + Zeros(d - k)) == (integer + fraction) + Zeros(d - k);
    assert PadEnd(fraction, d)[..d] == fraction + Zeros(d - k);
    ValAppend(integer + fraction, Zeros(d - k));
    ValZeros(d - k);
    Pow10Add(d - k, k);
    Associate(Val(integer + fraction), Pow10(d - k), Pow10(k));
  }

  lemma Associate(a: nat, b: nat, c: nat)
    ensures a * b * c == a * (b * c)
  {
  }

  // ---------- What keys do ----------

  function KeysOf(text: string): (es: seq<Event>)
    ensures |es| == |text|
  {
    seq(|text|, i requires 0 <= i < |text| => Key(text[i]))
  }

  lemma {:induction false} RunNext(es: seq<Event>, e: Event, decimals: nat)
    ensures Run(es + [e], decimals) == Apply(Run(es, decimals), e, decimals)
  {
    assert (es + [e])[..|es|] == es;
  }

  lemma KeysNext(text: string, k: char)
    ensures KeysOf(text + [k]) == KeysOf(text) + [Key(k)]
  {
  }

  /** One key of a decimal, after those before it. */
  lemma KeyExtends(p: Parts, k: char, decimals: nat)
    requires p.integer == "" || WellFormed(p, decimals)
    requires p.integer == "" ==> !p.dot && p.fraction == ""
    ensures IsDigit(k) && !p.dot && p.integer != "0" ==> Press(TextOf(p), k, decimals) == TextOf(p) + [k]
    ensures IsDigit(k) && p.dot && |p.fraction| < decimals ==> Press(TextOf(p), k, decimals) == TextOf(p) + [k]
    ensures k == '.' && !p.dot && p.integer != "" && decimals > 0 ==> Press(TextOf(p), k, decimals) == TextOf(p) + "."
  {
    var text := TextOf(p);
    if p.integer != "" { PointIn(p, decimals); }
    if p.dot {
      if IsDigit(k) { SplitOfText(p.integer, true, p.fraction + [k]); }
      assert p.integer + Tail(true, p.fraction + [k]) == text + [k];
      assert text[|p.integer|] == '.';
    } else {
      assert text == p.integer;
    }
  }

  lemma {:induction false} TypingInteger(integer: string, decimals: nat)
    requires integer == "" || Canonical(integer)
    ensures Run(KeysOf(integer), decimals) == integer
  {
    if integer != "" {
      var (init, k) := (integer[..|integer| - 1], integer[|integer| - 1]);
      assert integer == init + [k] && (init != "" ==> Canonical(init) && init[0] == integer[0]);
      TypingInteger(init, decimals);
      KeysNext(init, k);
      RunNext(KeysOf(init), Key(k), decimals);
      var p := Parts(init, false, "");
      assert init != "" ==> WellFormed(p, decimals);
      assert TextOf(p) == init && IsDigit(k);
      KeyExtends(p, k, decimals);
    }
  }

  /** Typing a decimal key by key gives that decimal, when the mode has room for its digits. */
  lemma {:induction false} TypingGives(p: Parts, decimals: nat)
    requires WellFormed(p, decimals) && (p.dot ==> decimals > 0)
    ensures Run(KeysOf(TextOf(p)), decimals) == TextOf(p)
    decreases |p.fraction|
  {
    hide Press;
    if !p.dot {
      TypingInteger(p.integer, decimals);
      assert TextOf(p) == p.integer;
    } else if p.fraction == "" {
      TypingInteger(p.integer, decimals);
      assert TextOf(p) == p.integer + ".";
      KeysNext(p.integer, '.');
      RunNext(KeysOf(p.integer), Key('.'), decimals);
      var q := Parts(p.integer, false, "");
      assert TextOf(q) == p.integer;
      KeyExtends(q, '.', decimals);
    } else {
      var (f, k) := (p.fraction[..|p.fraction| - 1], p.fraction[|p.fraction| - 1]);
      var q := Parts(p.integer, true, f);
      assert p.fraction == f + [k] && TextOf(p) == TextOf(q) + [k] && IsDigit(k);
      TypingGives(q, decimals);
      KeysNext(TextOf(q), k);
      RunNext(KeysOf(TextOf(q)), Key(k), decimals);
      KeyExtends(q, k, decimals);
    }
  }

  /** Backspace undoes a key that took effect, but for the two that put in or replace a zero. */
  lemma BackspaceUndoes(text: string, k: char, decimals: nat)
    requires k != 'x' && Press(text, k, decimals) != text
    ensures Press(Press(text, k, decimals), 'x', decimals) ==
            if text == "" && k == '.' then "0" else if text == "0" && k != '.' then "" else text
  {
    var t := Press(text, k, decimals);
    if text != "0" || k == '.' {
      assert text != "" ==> t == text + [k] && t[..|text|] == text;
    }
  }

  /** A key has no effect exactly when it is a second point or a point where none is allowed, a second leading zero, a
    * digit past the room there is, or a backspace with nothing to take away.
    */
  lemma NoEffect(p: Parts, k: char, decimals: nat)
    requires WellFormed(p, decimals) && IsKey(k)
    ensures Press(TextOf(p), k, decimals) == TextOf(p) <==>
            if k == '.' then decimals == 0 || p.dot
            else if k == 'x' then false
            else if p.dot then |p.fraction| == decimals else p.integer == "0" && k == '0'
  {
    var text := TextOf(p);
    PointIn(p, decimals);
    if k == 'x' {
      assert |text[..|text| - 1]| < |text|;
    } else if k == '.' {
      assert |text + "."| > |text|;
    } else if p.dot {
      assert text[|p.integer|] == '.' && |text| > 1;
      SplitOfText(p.integer, true, p.fraction + [k]);
      assert p.integer + Tail(true, p.fraction + [k]) == text + [k];
    } else {
      assert text == p.integer && |text + [k]| > |text|;
      assert '.' !in text + [k];
    }
  }

  // ---------- The keypad as it runs ----------

  class Keypad {
    const decimals: nat
    var textValue: string

    constructor (decimals: nat)
      ensures this.decimals == decimals && textValue == Run([], decimals)
    {
      this.decimals, textValue := decimals, "";
    }

    method HandleKeyPress(k: char)
      modifies this
      ensures textValue == Apply(old(textValue), Key(k), decimals)
    {
      if k == '.' {
        if decimals == 0 || '.' in textValue {
          return;
        }
        textValue := if textValue == "" then "0." else textValue + ".";
        return;
      }
      if k == 'x' {
        if |textValue| == 0 {
          return;
        }
        textValue := textValue[..|textValue| - 1];
        return;
      }
      if textValue == "0" {
        if k != '0' {
          textValue := [k];
        }
        return;
      }
      var newText := textValue + [k];
      if '.' in newText {
        var decimalPlaces := |SplitAtDot(newText).1|;
        if decimalPlaces > decimals {
          return;
        }
      }
      textValue := newText;
    }

    method HandleMaxPress(balance: nat)
      modifies this
      ensures textValue == Apply(old(textValue), Max(balance), decimals)
      ensures decimals <= MAX_CONVERSION_DECIMALS ==> UnitsToCents(textValue, Finite(decimals as real)) == Ok(balance)
    {
      textValue := CentsToUnits(balance, Finite(decimals as real));
      CentsRoundTrip(balance, Finite(decimals as real));
    }
  }
}
