/** Integers as bytes: the order on the wire, and the order in the memory of whatever host runs the binding. */
module ByteOrder {
  import opened Unicode

  function Pow256(w: nat): (p: nat)
    ensures p > 0
  {
    if w == 0 then 1 else 0x100 * Pow256(w - 1)
  }

  /** One past the greatest signed number of `w` bytes. */
  function Half(w: nat): int { Pow256(w) / 2 }

  // ---------- The wire: most significant byte first ----------

  function BigEndian(n: int, w: nat): (b: seq<byte>)
    ensures |b| == w
    decreases w
  {
    if w == 0 then [] else BigEndian(n / 0x100, w - 1) + [n % 0x100]
  }

  function FromBigEndian(b: seq<byte>): (n: nat)
    ensures n < Pow256(|b|)
  {
    if b == [] then 0 else FromBigEndian(b[..|b| - 1]) * 0x100 + b[|b| - 1]
  }

  /** Two's complement: the value whose low `w` bytes are `u`. */
  function AsSigned(u: int, w: nat): int {
    if u < Half(w) then u else u - Pow256(w)
  }

  lemma QuotientOfQuotient(n: int, d: int)
    requires d > 0
    ensures n / 0x100 / d == n / (0x100 * d)
  {
    var q := n / 0x100 / d;
    assert n == n / 0x100 * 0x100 + n % 0x100;
    assert n / 0x100 == q * d + n / 0x100 % d;
    var r := n / 0x100 % d * 0x100 + n % 0x100;
    assert n == q * (0x100 * d) + r && 0 <= r < 0x100 * d;
    Quotient(n, 0x100 * d, q, r);
  }

  lemma Quotient(n: int, d: int, q: int, r: int)
    requires d > 0 && n == q * d + r && 0 <= r < d
    ensures n / d == q
  {
    var k := n / d - q;
    assert k * d == r - n % d by { assert n == n / d * d + n % d; }
    assert k > 0 ==> k * d >= d;
    assert k < 0 ==> k * d <= 0 - d;
  }

  /** Byte `i` is the digit of `256^(w-1-i)`, for negative numbers that of their two's complement. */
  lemma {:induction false} ByteAt(n: int, w: nat, i: nat)
    requires i < w
    ensures BigEndian(n, w)[i] == n / Pow256(w - 1 - i) % 0x100
    decreases w
  {
    if i < w - 1 {
      ByteAt(n / 0x100, w - 1, i);
      QuotientOfQuotient(n, Pow256(w - 2 - i));
    }
  }

  /** `b` is `n` written out in `w` digits of base 256, the highest first. */
  ghost predicate Spells(b: seq<byte>, n: int, w: nat) {
    |b| == w && forall i :: 0 <= i < w ==> b[i] == n / Pow256(w - 1 - i) % 0x100
  }

  /** Those digits are the big-endian bytes and no others. */
  lemma {:induction false} SpellsBigEndian(b: seq<byte>, n: int, w: nat)
    ensures Spells(b, n, w) <==> b == BigEndian(n, w)
  {
    forall i | 0 <= i < w ensures BigEndian(n, w)[i] == n / Pow256(w - 1 - i) % 0x100 {
      ByteAt(n, w, i);
    }
  }

  /** Only the low `w` bytes of a number are written, so a negative number is written as its two's complement. */
  lemma {:induction false} BigEndianWraps(n: int, w: nat)
    ensures BigEndian(n, w) == BigEndian(n + Pow256(w), w)
    decreases w
  {
    if w > 0 {
      assert (n + Pow256(w)) / 0x100 == n / 0x100 + Pow256(w - 1);
      BigEndianWraps(n / 0x100, w - 1);
    }
  }

  lemma {:induction false} FromBigEndianRoundTrip(b: seq<byte>)
    ensures BigEndian(FromBigEndian(b), |b|) == b
  {
    if b != [] {
      var (high, last) := (b[..|b| - 1], b[|b| - 1]);
      FromBigEndianRoundTrip(high);
      assert b == high + [last];
      BigEndianSnoc(FromBigEndian(high), last, |high|);
    }
  }

  lemma BigEndianSnoc(high: nat, last: byte, w: nat)
    ensures BigEndian(high * 0x100 + last, w + 1) == BigEndian(high, w) + [last]
  {
    var n := high * 0x100 + last;
    assert n / 0x100 == high && n % 0x100 == last;
  }

  lemma {:induction false} FromBigEndianSnoc(b: seq<byte>, last: byte)
    ensures FromBigEndian(b + [last]) == FromBigEndian(b) * 0x100 + last
  {
    assert (b + [last])[..|b|] == b;
  }

  lemma {:induction false} BigEndianRoundTrip(n: int, w: nat)
    requires 0 <= n < Pow256(w)
    ensures FromBigEndian(BigEndian(n, w)) == n
  {
    if w > 0 {
      var high := BigEndian(n / 0x100, w - 1);
      assert n / 0x100 < Pow256(w - 1);
      BigEndianRoundTrip(n / 0x100, w - 1);
      FromBigEndianSnoc(high, n % 0x100);
    }
  }

  // ---------- The host: either order ----------

  function LittleEndian(n: int, w: nat): (b: seq<byte>)
    ensures |b| == w
    decreases w
  {
    if w == 0 then [] else [n % 0x100] + LittleEndian(n / 0x100, w - 1)
  }

  function FromLittleEndian(b: seq<byte>): nat {
    if b == [] then 0 else b[0] + 0x100 * FromLittleEndian(b[1..])
  }

  /** The bytes of an integer variable, in address order. */
  function InMemory(n: int, w: nat, littleEndian: bool): (b: seq<byte>)
    ensures |b| == w
  {
    if littleEndian then LittleEndian(n, w) else BigEndian(n, w)
  }

  /** The integer whose variable holds these bytes. */
  function FromMemory(b: seq<byte>, littleEndian: bool): nat {
    if littleEndian then FromLittleEndian(b) else FromBigEndian(b)
  }

  /** `n.bigEndian`: the bytes swapped on a little-endian host, `n` itself on the other. */
  function BigEndianOf(n: int, w: nat, littleEndian: bool): int {
    if littleEndian then FromLittleEndian(BigEndian(n, w)) else n
  }

  lemma {:induction false} FromLittleEndianRoundTrip(b: seq<byte>)
    ensures LittleEndian(FromLittleEndian(b), |b|) == b
  {
    if b != [] {
      FromLittleEndianRoundTrip(b[1..]);
      assert FromLittleEndian(b) / 0x100 == FromLittleEndian(b[1..]);
      assert b == [b[0]] + b[1..];
    }
  }

  /** Appending the memory of `value.bigEndian` writes the wire order on every host. */
  lemma {:induction false} WrittenBytes(n: int, w: nat, littleEndian: bool)
    ensures InMemory(BigEndianOf(n, w, littleEndian), w, littleEndian) == BigEndian(n, w)
  {
    FromLittleEndianRoundTrip(BigEndian(n, w));
  }

  lemma {:induction false} LittleEndianSnoc(n: int, w: nat)
    ensures LittleEndian(n, w + 1) == LittleEndian(n, w) + [n / Pow256(w) % 0x100]
    decreases w
  {
    if w > 0 {
      LittleEndianSnoc(n / 0x100, w - 1);
      QuotientOfQuotient(n, Pow256(w - 1));
    }
  }

  /** The two orders are mirror images. */
  lemma {:induction false} MirrorAt(n: int, w: nat, i: nat)
    requires i < w
    ensures LittleEndian(n, w)[i] == BigEndian(n, w)[w - 1 - i]
  {
    LittleAt(n, w, i);
    ByteAt(n, w, w - 1 - i);
  }

  lemma {:induction false} LittleAt(n: int, w: nat, i: nat)
    requires i < w
    ensures LittleEndian(n, w)[i] == n / Pow256(i) % 0x100
    decreases w
  {
    LittleEndianSnoc(n, w - 1);
    if i < w - 1 { LittleAt(n, w - 1, i); }
  }

  /** A number whose memory, low byte first, spells what `b` spells backwards is the number `b` spells. */
  lemma {:induction false} MirrorOf(m: int, n: int, b: seq<byte>)
    requires LittleEndian(n, |b|) == b && LittleEndian(m, |b|) == BigEndian(n, |b|)
    ensures BigEndian(m, |b|) == b
  {
    forall i | 0 <= i < |b| ensures BigEndian(m, |b|)[i] == b[i] {
      MirrorAt(m, |b|, |b| - 1 - i);
      MirrorAt(n, |b|, i);
    }
  }

  /** `value.bigEndian` of a variable filled with wire bytes is the number they spell, on every host. */
  lemma {:induction false} ReadBytes(b: seq<byte>, littleEndian: bool)
    ensures BigEndianOf(FromMemory(b, littleEndian), |b|, littleEndian) == FromBigEndian(b)
  {
    hide LittleEndian;
    hide BigEndian;
    hide FromLittleEndian;
    hide FromBigEndian;
    var n := FromLittleEndian(b);
    var m := FromLittleEndian(BigEndian(n, |b|));
    FromLittleEndianRoundTrip(b);
    FromLittleEndianRoundTrip(BigEndian(n, |b|));
    FromLittleEndianBelow(BigEndian(n, |b|));
    MirrorOf(m, n, b);
    BigEndianRoundTrip(m, |b|);
  }

  lemma {:induction false} FromLittleEndianBelow(b: seq<byte>)
    ensures FromLittleEndian(b) < Pow256(|b|)
  {
    if b != [] { FromLittleEndianBelow(b[1..]); }
  }
}
