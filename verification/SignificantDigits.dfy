/** decimal.js on positive numbers: twenty significant digits, halves up. */
module SignificantDigits {
  import opened Decimals

  const TWENTY_DIGITS := 1_0000_0000_0000_0000_0000  // one past the greatest integer of twenty digits
  const NINETEEN_DIGITS := 1000_0000_0000_0000_0000

  /** A coefficient with a decimal point: `coefficient / 10^places`. */
  datatype Decimal = Decimal(coefficient: nat, places: int)

  /** The integer nearest to `a / b`, of two the upper. */
  function Nearest(a: nat, b: nat): nat
    requires b > 0
  {
    (2 * a + b) / (2 * b)
  }

  /** `a / b` has twenty digits before the point. */
  predicate HasTwentyDigits(a: nat, b: nat) { TWENTY_DIGITS * b <= 10 * a && a < TWENTY_DIGITS * b }

  /** Twenty significant digits of `n / d` are those up to `p` decimals, or up to `10^-p` for a negative `p`. */
  predicate Keeps(n: nat, d: nat, p: int) {
    if p >= 0 then HasTwentyDigits(n * Pow10(p), d) else HasTwentyDigits(n, d * Pow10(0 - p))
  }

  function PlacesUp(n: nat, d: nat): (p: nat)
    requires 0 < n < TWENTY_DIGITS * d
    ensures Keeps(n, d, p)
    decreases TWENTY_DIGITS * d - n
  {
    if TWENTY_DIGITS * d <= 10 * n then 0
    else
      var rest := PlacesUp(10 * n, d);
      TenTimes(n, rest);
      rest + 1
  }

  function PlacesDown(n: nat, d: nat): (p: nat)
    requires 0 < TWENTY_DIGITS * d <= n
    ensures p > 0 && Keeps(n, d, 0 - p)
    decreases n - TWENTY_DIGITS * d
  {
    if n < TWENTY_DIGITS * (10 * d) then
      assert Pow10(1) == 10;
      1
    else
      var rest := PlacesDown(n, 10 * d);
      TenTimes(d, rest);
      rest + 1
  }

  function Places(n: nat, d: nat): (p: int)
    requires n > 0 && d > 0
    ensures Keeps(n, d, p)
    ensures p >= 0 <==> n < TWENTY_DIGITS * d
  {
    if n < TWENTY_DIGITS * d then PlacesUp(n, d) else 0 - PlacesDown(n, d)
  }

  /** `mul` of two integers with that product: left alone up to twenty digits, and otherwise rounded to them. */
  function Product20(n: nat): (r: nat)
    ensures n > 0 ==> r > 0
  {
    if n < TWENTY_DIGITS then n
    else
      var t := Pow10(PlacesDown(n, 1));
      AtLeast(n, t, 1);
      ProductSign(Nearest(n, t), t);
      Nearest(n, t) * t
  }

  /** `div` */
  function Quotient20(n: nat, d: nat): Decimal
    requires n > 0 && d > 0
  {
    var p := Places(n, d);
    Decimal(if p >= 0 then Nearest(n * Pow10(p), d) else Steps(n, d, Pow10(0 - p)), p)
  }

  /** How many times `t` goes into `n / d`, to the nearest. */
  function Steps(n: nat, d: nat, t: nat): nat
    requires d > 0 && t > 0
  {
    ProductSign(d, t);
    Nearest(n, d * t)
  }

  /** `toFixed(0)` */
  function ToFixed0(x: Decimal): nat {
    if x.places >= 0 then Nearest(x.coefficient, Pow10(x.places)) else x.coefficient * Pow10(0 - x.places)
  }

  // ---------- Products ----------

  lemma ProductSign(a: int, b: int)
    requires b > 0
    ensures a > 0 ==> a * b >= b
    ensures a == 0 ==> a * b == 0
    ensures a < 0 ==> a * b <= 0 - b
  {
  }

  lemma ProductGrows(a: nat, b: int, c: int)
    requires b <= c
    ensures a * b <= a * c
  {
  }

  lemma TenTimes(n: nat, p: nat)
    ensures 10 * n * Pow10(p) == n * Pow10(p + 1)
  {
    assert 10 * n * Pow10(p) == n * (10 * Pow10(p));
  }

  lemma {:induction false} TenGrows(p: nat, q: nat)
    requires p < q
    ensures 10 * Pow10(p) <= Pow10(q)
  {
    if p + 1 < q { TenGrows(p, q - 1); }
  }

  // ---------- Rounding ----------

  /** Comparing a rounded quotient with an integer, in integers. */
  lemma AtLeast(a: nat, b: nat, k: int)
    requires b > 0
    ensures k <= Nearest(a, b) <==> 2 * (k * b) - b <= 2 * a
  {
    var r := Nearest(a, b);
    var rest := (2 * a + b) % (2 * b);
    assert 2 * a + b == r * (2 * b) + rest;
    assert (k - r) * b == k * b - r * b;
    assert r * (2 * b) == 2 * (r * b);
    ProductSign(k - r, b);
  }

  /** No other integer is within half a unit, halves up. */
  lemma NearestIs(a: nat, b: nat, q: int)
    requires b > 0
    ensures Nearest(a, b) == q <==> 2 * (q * b) - b <= 2 * a < 2 * (q * b) + b
  {
    AtLeast(a, b, q);
    AtLeast(a, b, q + 1);
    assert (q + 1) * b == q * b + b;
  }

  /** There is one way of keeping twenty digits. */
  lemma PlacesUnique(n: nat, d: nat, p: int, q: int)
    requires d > 0 && Keeps(n, d, p) && Keeps(n, d, q)
    ensures p == q
  {
    if p < q { KeepsOnce(n, d, p, q); }
    if q < p { KeepsOnce(n, d, q, p); }
  }

  lemma KeepsOnce(n: nat, d: nat, p: int, q: int)
    requires d > 0 && p < q && Keeps(n, d, p)
    ensures !Keeps(n, d, q)
  {
    if p >= 0 {
      TenGrows(p, q);
      ProductGrows(n, 10 * Pow10(p), Pow10(q));
      assert n * (10 * Pow10(p)) == 10 * (n * Pow10(p));
    } else if q >= 0 {
      TenGrows(0, 0 - p);
      ProductGrows(d, 10, Pow10(0 - p));
      ProductGrows(n, 1, Pow10(q));
    } else {
      TenGrows(0 - q, 0 - p);
      ProductGrows(d, 10 * Pow10(0 - q), Pow10(0 - p));
      assert d * (10 * Pow10(0 - q)) == 10 * (d * Pow10(0 - q));
    }
  }

  // ---------- Rounding twice ----------

  /** What makes `q` the quotient of `n` and `d`, rounded to twenty digits, `p` decimals, and then to an integer. */
  predicate Fixes(n: nat, d: nat, p: int, q: int) {
    if p > 0 then
      0 - d <= Pow10(p) * (2 * n + d - 2 * (q * d)) && d < Pow10(p) * (2 * (q * d) + d - 2 * n)
    else
      q % Pow10(0 - p) == 0 && 2 * (q * d) - Pow10(0 - p) * d <= 2 * n < 2 * (q * d) + Pow10(0 - p) * d
  }

  /** The first rounding is finer than half a unit, so it only matters within its own error of a half. */
  lemma {:induction false} FixedAtLeast(n: nat, d: nat, p: nat, q: int)
    requires d > 0 && p > 0
    ensures q <= Nearest(Nearest(n * Pow10(p), d), Pow10(p)) <==> 0 - d <= Pow10(p) * (2 * n + d - 2 * (q * d))
  {
    var (t, s) := (Pow10(p), 5 * Pow10(p - 1));
    assert n * t >= 0 && t == 2 * s;
    hide Nearest;
    hide Pow10;
    var z := Nearest(n * t, d);
    AtLeast(z, t, q);
    AtLeast(n * t, d, 2 * (q * s) - s);
    Halves(q, s, t);
    Regrouped(n, d, s, t, q);
  }

  lemma Halves(q: int, s: nat, t: nat)
    requires t == 2 * s
    ensures q * t == 2 * (q * s)
  {
  }

  lemma Regrouped(n: nat, d: nat, s: nat, t: nat, q: int)
    requires t == 2 * s
    ensures t * (2 * n + d - 2 * (q * d)) == 2 * (n * t) - 2 * ((2 * (q * s) - s) * d)
  {
    assert (2 * (q * s) - s) * d == 2 * (q * s * d) - s * d;
    assert s * (2 * n + d - 2 * (q * d)) == 2 * (n * s) + s * d - 2 * (s * (q * d));
    assert s * (q * d) == q * s * d;
    Halves(n, s, t);
    Halves(2 * n + d - 2 * (q * d), s, t);
  }

  lemma {:induction false} FixedBefore(n: nat, d: nat, t: nat, q: int)
    requires d > 0 && t > 0
    ensures Steps(n, d, t) * t == q <==> q % t == 0 && 2 * (q * d) - t * d <= 2 * n < 2 * (q * d) + t * d
  {
    ProductSign(d, t);
    var z := Nearest(n, d * t);
    if q % t == 0 {
      var k := q / t;
      assert q == k * t;
      assert k * (d * t) == k * t * d;
      NearestIs(n, d * t, k);
      assert (z - k) * t == z * t - q;
      ProductSign(z - k, t);
    } else if z * t == q {
      Multiple(z, t);
    }
  }

  lemma Multiple(z: nat, t: nat)
    requires t > 0
    ensures z * t % t == 0
  {
    var x := z * t;
    assert (z - x / t) * t == x % t;
    ProductSign(z - x / t, t);
  }

  /** The integer a quotient is printed as, for every quotient: the one integer meeting `Fixes`. */
  lemma FixedIs(n: nat, d: nat, q: int)
    requires n > 0 && d > 0
    ensures ToFixed0(Quotient20(n, d)) == q <==> Fixes(n, d, Places(n, d), q)
  {
    var p := Places(n, d);
    hide Places;
    if p > 0 {
      FixedAtLeast(n, d, p, q);
      FixedAtLeast(n, d, p, q + 1);
      Next(n, d, Pow10(p), q);
    } else {
      FixedBefore(n, d, Pow10(0 - p), q);
      if p == 0 { NearestIs(Nearest(n * Pow10(0), d), 1, q); }
    }
  }

  lemma Next(n: nat, d: nat, t: nat, q: int)
    ensures t * (2 * n + d - 2 * ((q + 1) * d)) == 0 - t * (2 * (q * d) + d - 2 * n)
  {
    assert (q + 1) * d == q * d + d;
  }

  /** Rounding to decimals first spares the nearest integer unless it lifts a fraction onto the half above it. */
  lemma {:induction false} NearestSpared(n: nat, d: nat, p: nat)
    requires d > 0
    ensures var q := Nearest(n, d);
            Fixes(n, d, p, q) <==> p == 0 || d < Pow10(p) * (2 * (q * d) + d - 2 * n)
  {
    var q := Nearest(n, d);
    NearestIs(n, d, q);
    assert Pow10(0) == 1;
    hide Nearest;
    hide Pow10;
    if p > 0 { ProductSign(2 * n + d - 2 * (q * d), Pow10(p)); }
  }

  /** A product with more than twenty digits becomes the nearest integer with zeros for the digits past them. */
  lemma ProductIs(n: nat)
    ensures n < TWENTY_DIGITS ==> Product20(n) == n
    ensures n >= TWENTY_DIGITS ==>
              var t := Pow10(0 - Places(n, 1));
              Product20(n) % t == 0 && 2 * Product20(n) - t <= 2 * n < 2 * Product20(n) + t
  {
    if n >= TWENTY_DIGITS {
      var t := Pow10(PlacesDown(n, 1));
      NearestIs(n, t, Nearest(n, t));
      Multiple(Nearest(n, t), t);
    }
  }

  // ---------- How far off ----------

  /** A quotient is printed less than one unit off, or than half a part in 10^19. */
  lemma FixedAccuracy(n: nat, d: nat, q: int)
    requires n > 0 && d > 0 && Fixes(n, d, Places(n, d), q)
    ensures 0 - 2 * NINETEEN_DIGITS * d - n <= 2 * NINETEEN_DIGITS * (q * d - n) <= 2 * NINETEEN_DIGITS * d + n
  {
    var p := Places(n, d);
    hide Places;
    if p > 0 {
      hide Keeps;
      WithinOne(Pow10(p), d, 2 * n + d - 2 * (q * d));
      WithinOne(Pow10(p), d, 2 * (q * d) + d - 2 * n);
    } else {
      assert d * Pow10(0 - p) == Pow10(0 - p) * d;
      hide Pow10;
      assert Pow10(0) == 1;
    }
  }

  lemma WithinOne(t: nat, d: nat, x: int)
    requires t > 0 && 0 - d <= t * x
    ensures 0 - d <= x
  {
    assert t * x >= 0 || t * x <= x;
  }

  lemma ProductAccuracy(n: nat)
    ensures 0 - n <= 2 * NINETEEN_DIGITS * (Product20(n) - n) <= n
  {
    if n >= TWENTY_DIGITS {
      var p := PlacesDown(n, 1);
      var t := Pow10(p);
      NearestIs(n, t, Nearest(n, t));
      hide PlacesDown;
      hide Nearest;
      hide Pow10;
    }
  }
}
