/** The FFI wire format: what the generated Swift converters write and read.
  *
  * Every generated converter is one of a few templates (integer, double, bool, string, option,
  * sequence, record, enum) applied to other converters. `Schema` is that vocabulary; the
  * records and enums of the interface are the constants of module `FfiTypes`.
  */
module FfiCodec {
  import opened ByteOrder
  import Texts = Text
  import opened Unicode

  datatype Field = Field(name: string, schema: Schema)

  datatype Case = Case(name: string, fields: seq<Field>)

  datatype Schema =
    | Unsigned(width: nat)
    | Signed(width: nat)
    | Bits64                      // a Double, as its bit pattern
    | Bool
    | Text
    | Optional(elem: Schema)
    | Sequence(elem: Schema)
    | Record(fields: seq<Field>)
    | Enum(cases: seq<Case>)

  datatype Value =
    | Number(n: int)
    | Flag(on: bool)
    | Chars(s: string)
    | Nothing
    | Just(v: Value)
    | List(items: seq<Value>)     // a sequence, or a record's fields in order
    | Variant(index: nat, items: seq<Value>)

  /** How a read ends. `Trap` is a Swift runtime failure (a forced unwrap or a negative range), not a thrown error. */
  datatype Error = BufferOverflow | IncompleteData | UnexpectedOptionalTag | UnexpectedEnumCase | Trap

  datatype Parsed<+T> = Ok(value: T, used: nat) | Fail(error: Error)

  datatype Lifted<+T> = Lift(value: T) | Throw(error: Error)

  const MAX_COUNT := 0x8000_0000  // counts and lengths travel as Int32

  // ---------- Values in range ----------

  ghost predicate HasType(v: Value, s: Schema)
    decreases s, 1
  {
    match s
    case Unsigned(w) => v.Number? && 0 <= v.n < Pow256(w)
    case Signed(w) => w > 0 && v.Number? && -Half(w) <= v.n < Half(w)
    case Bits64 => v.Number? && 0 <= v.n < Pow256(8)
    case Bool => v.Flag?
    case Text => v.Chars? && |EncodeUtf8(v.s)| < MAX_COUNT
    case Optional(e) => v.Nothing? || (v.Just? && HasType(v.v, e))
    case Sequence(e) => v.List? && |v.items| < MAX_COUNT && HaveType(v.items, e)
    case Record(fs) => v.List? && HaveTypes(v.items, fs)
    case Enum(cs) => v.Variant? && v.index < |cs| && v.index < MAX_COUNT - 1 && HaveTypes(v.items, cs[v.index].fields)
  }

  ghost predicate HaveType(vs: seq<Value>, e: Schema)
    decreases e, 2, |vs|
  {
    vs == [] || (HasType(vs[0], e) && HaveType(vs[1..], e))
  }

  ghost predicate HaveTypes(vs: seq<Value>, fs: seq<Field>)
    decreases fs, 0
  {
    if fs == [] then vs == [] else vs != [] && HasType(vs[0], fs[0].schema) && HaveTypes(vs[1..], fs[1..])
  }

  // ---------- What is written ----------

  function Encode(v: Value, s: Schema): seq<byte>
    requires HasType(v, s)
    decreases s, 1
  {
    match s
    case Unsigned(w) => BigEndian(v.n, w)
    case Signed(w) => BigEndian(v.n, w)
    case Bits64 => BigEndian(v.n, 8)
    case Bool => BigEndian(if v.on then 1 else 0, 1)
    case Text => BigEndian(|EncodeUtf8(v.s)|, 4) + EncodeUtf8(v.s)
    case Optional(e) => if v.Nothing? then BigEndian(0, 1) else BigEndian(1, 1) + Encode(v.v, e)
    case Sequence(e) => BigEndian(|v.items|, 4) + EncodeEach(v.items, e)
    case Record(fs) => EncodeFields(v.items, fs)
    case Enum(cs) => BigEndian(v.index + 1, 4) + EncodeFields(v.items, cs[v.index].fields)
  }

  function EncodeEach(vs: seq<Value>, e: Schema): seq<byte>
    requires HaveType(vs, e)
    decreases e, 2, |vs|
  {
    if vs == [] then [] else Encode(vs[0], e) + EncodeEach(vs[1..], e)
  }

  function EncodeFields(vs: seq<Value>, fs: seq<Field>): seq<byte>
    requires HaveTypes(vs, fs)
    decreases fs, 0
  {
    if fs == [] then [] else Encode(vs[0], fs[0].schema) + EncodeFields(vs[1..], fs[1..])
  }

  // ---------- What is read ----------

  function ReadInt(b: seq<byte>, w: nat): (r: Parsed<int>) {
    if |b| < w then Fail(BufferOverflow) else Ok(FromBigEndian(b[..w]), w)
  }

  function ReadSigned(b: seq<byte>, w: nat): (r: Parsed<int>) {
    match ReadInt(b, w)
    case Fail(e) => Fail(e)
    case Ok(u, n) => Ok(AsSigned(u, w), n)
  }

  function ReadText(b: seq<byte>): (r: Parsed<string>)
    ensures r.Ok? ==> r.used <= |b|
  {
    match ReadSigned(b, 4)
    case Fail(e) => Fail(e)
    case Ok(len, n) =>
      if len < 0 then Fail(Trap)
      else if |b| < n + len then Fail(BufferOverflow)
      else match DecodeUtf8(b[n..n + len])
        case None => Fail(Trap)
        case Some(s) => Ok(s, n + len)
  }

  function Decode(b: seq<byte>, s: Schema): (r: Parsed<Value>)
    ensures r.Ok? ==> r.used <= |b|
    decreases s, 1
  {
    match s
    case Unsigned(w) => AsNumber(ReadInt(b, w))
    case Signed(w) => AsNumber(ReadSigned(b, w))
    case Bits64 => AsNumber(ReadInt(b, 8))
    case Bool => DecodeBool(b)
    case Text => DecodeText(b)
    case Optional(e) => DecodeOptional(b, e)
    case Sequence(e) => DecodeSequence(b, e)
    case Record(fs) => DecodeRecord(b, fs)
    case Enum(cs) => DecodeEnum(b, cs)
  }

  function AsNumber(r: Parsed<int>): Parsed<Value> {
    match r
    case Ok(v, n) => Ok(Number(v), n)
    case Fail(e) => Fail(e)
  }

  function DecodeBool(b: seq<byte>): Parsed<Value> {
    match ReadInt(b, 1)
    case Ok(v, n) => Ok(Flag(v != 0), n)
    case Fail(e) => Fail(e)
  }

  function DecodeText(b: seq<byte>): Parsed<Value> {
    match ReadText(b)
    case Ok(t, n) => Ok(Chars(t), n)
    case Fail(e) => Fail(e)
  }

  function DecodeOptional(b: seq<byte>, e: Schema): (r: Parsed<Value>)
    ensures r.Ok? ==> r.used <= |b|
    decreases e, 3
  {
    match ReadSigned(b, 1)
    case Fail(err) => Fail(err)
    case Ok(tag, n) =>
      if tag == 0 then Ok(Nothing, n)
      else if tag != 1 then Fail(UnexpectedOptionalTag)
      else match Decode(b[n..], e)
        case Fail(err) => Fail(err)
        case Ok(v, m) => Ok(Just(v), n + m)
  }

  function DecodeSequence(b: seq<byte>, e: Schema): (r: Parsed<Value>)
    ensures r.Ok? ==> r.used <= |b|
    decreases e, 3
  {
    match ReadSigned(b, 4)
    case Fail(err) => Fail(err)
    case Ok(len, n) =>
      if len < 0 then Fail(Trap)
      else match DecodeEach(b[n..], e, len)
        case Fail(err) => Fail(err)
        case Ok(vs, m) => Ok(List(vs), n + m)
  }

  function DecodeRecord(b: seq<byte>, fs: seq<Field>): (r: Parsed<Value>)
    ensures r.Ok? ==> r.used <= |b|
    decreases fs, 1
  {
    match DecodeFields(b, fs)
    case Fail(err) => Fail(err)
    case Ok(vs, n) => Ok(List(vs), n)
  }

  function DecodeEnum(b: seq<byte>, cs: seq<Case>): (r: Parsed<Value>)
    ensures r.Ok? ==> r.used <= |b|
    decreases cs, 1
  {
    match ReadSigned(b, 4)
    case Fail(err) => Fail(err)
    case Ok(tag, n) =>
      if !(1 <= tag <= |cs|) then Fail(UnexpectedEnumCase)
      else match DecodeFields(b[n..], cs[tag - 1].fields)
        case Fail(err) => Fail(err)
        case Ok(vs, m) => Ok(Variant(tag - 1, vs), n + m)
  }

  function DecodeEach(b: seq<byte>, e: Schema, count: nat): (r: Parsed<seq<Value>>)
    ensures r.Ok? ==> r.used <= |b|
    ensures count == 0 ==> r == Ok([], 0)
    decreases e, 2, count
  {
    if count == 0 then Ok([], 0)
    else match Decode(b, e)
      case Fail(err) => Fail(err)
      case Ok(v, n) => match DecodeEach(b[n..], e, count - 1)
        case Fail(err) => Fail(err)
        case Ok(vs, m) => Ok([v] + vs, n + m)
  }

  function DecodeFields(b: seq<byte>, fs: seq<Field>): (r: Parsed<seq<Value>>)
    ensures r.Ok? ==> r.used <= |b|
    decreases fs, 0
  {
    if fs == [] then Ok([], 0)
    else match Decode(b, fs[0].schema)
      case Fail(err) => Fail(err)
      case Ok(v, n) => match DecodeFields(b[n..], fs[1..])
        case Fail(err) => Fail(err)
        case Ok(vs, m) => Ok([v] + vs, n + m)
  }

  // ---------- Lowering and lifting ----------

  function Lower(v: Value, s: Schema): seq<byte>
    requires HasType(v, s)
  {
    Encode(v, s)
  }

  function LiftBuffer(b: seq<byte>, s: Schema): Lifted<Value> {
    match Decode(b, s)
    case Fail(e) => Throw(e)
    case Ok(v, n) => if n < |b| then Throw(IncompleteData) else Lift(v)
  }

  // ---------- Integers survive ----------

  lemma {:induction false} UnsignedRoundTrip(n: int, w: nat, rest: seq<byte>)
    requires 0 <= n < Pow256(w)
    ensures ReadInt(BigEndian(n, w) + rest, w) == Ok(n, w)
  {
    BigEndianRoundTrip(n, w);
    assert (BigEndian(n, w) + rest)[..w] == BigEndian(n, w);
  }

  lemma {:induction false} SignedRoundTrip(n: int, w: nat, rest: seq<byte>)
    requires w > 0 && -Half(w) <= n < Half(w)
    ensures ReadSigned(BigEndian(n, w) + rest, w) == Ok(n, w)
  {
    if n < 0 {
      BigEndianWraps(n, w);
      UnsignedRoundTrip(n + Pow256(w), w, rest);
    } else {
      UnsignedRoundTrip(n, w, rest);
    }
  }

  lemma Pow256Values()
    ensures Pow256(1) == 0x100 && Pow256(4) == 0x1_0000_0000
  {
  }

  /** Reading the four-byte count in front of `tail` leaves exactly `tail`. */
  lemma {:induction false} CountRoundTrip(n: nat, tail: seq<byte>)
    requires n < MAX_COUNT
    ensures ReadSigned(BigEndian(n, 4) + tail, 4) == Ok(n, 4)
    ensures (BigEndian(n, 4) + tail)[4..] == tail
  {
    Pow256Values();
    SignedRoundTrip(n, 4, tail);
  }

  /** A read of several items, `done` of which took the first `n` bytes and the others read as `r`. */
  function Resumed(done: seq<Value>, n: nat, r: Parsed<seq<Value>>): Parsed<seq<Value>> {
    match r
    case Ok(vs, m) => Ok(done + vs, n + m)
    case Fail(e) => Fail(e)
  }

  // ---------- Reading back what was written ----------

  /** Resuming from nothing, and with nothing left. */
  lemma ResumedEnds(done: seq<Value>, n: nat, r: Parsed<seq<Value>>)
    ensures Resumed([], 0, r) == r && Resumed(done, n, Ok([], 0)) == Ok(done, n)
  {
    assert done + [] == done;
    if r.Ok? { assert [] + r.value == r.value; }
  }

  lemma DropTwice(b: seq<byte>, i: nat, j: nat)
    requires i <= j <= |b|
    ensures b[i..][j - i..] == b[j..]
  {
  }

  /** Reading what was written returns the value and stops exactly at its end, whatever bytes follow. */
  lemma {:induction false} DecodeEncode(v: Value, s: Schema, rest: seq<byte>)
    requires HasType(v, s)
    ensures Decode(Encode(v, s) + rest, s) == Ok(v, |Encode(v, s)|)
    decreases s, 1
  {
    match s
    case Unsigned(w) => UnsignedRoundTrip(v.n, w, rest);
    case Signed(w) => SignedRoundTrip(v.n, w, rest);
    case Bits64 => UnsignedRoundTrip(v.n, 8, rest);
    case Bool => Pow256Values(); UnsignedRoundTrip(if v.on then 1 else 0, 1, rest);
    case Text => DecodeEncodeText(v.s, rest);
    case Optional(e) => DecodeEncodeOptional(v, e, rest);
    case Sequence(e) => DecodeEncodeSequence(v, e, rest);
    case Record(fs) => DecodeEncodeFields(v.items, fs, rest);
    case Enum(cs) => DecodeEncodeEnum(v, cs, rest);
  }

  lemma {:induction false} DecodeEncodeText(t: string, rest: seq<byte>)
    requires |EncodeUtf8(t)| < MAX_COUNT
    ensures var b := BigEndian(|EncodeUtf8(t)|, 4) + EncodeUtf8(t);
            ReadText(b + rest) == Ok(t, |b|)
  {
    var u := EncodeUtf8(t);
    var b := BigEndian(|u|, 4) + u + rest;
    assert b == BigEndian(|u|, 4) + (u + rest);
    CountRoundTrip(|u|, u + rest);
    assert b[4..4 + |u|] == u;
    DecodeEncodeUtf8(t);
  }

  lemma {:induction false} DecodeEncodeOptional(v: Value, e: Schema, rest: seq<byte>)
    requires HasType(v, Optional(e))
    ensures DecodeOptional(Encode(v, Optional(e)) + rest, e) == Ok(v, |Encode(v, Optional(e))|)
    decreases e, 3
  {
    hide Decode;
    Pow256Values();
    if v.Nothing? {
      SignedRoundTrip(0, 1, rest);
    } else {
      var tail := Encode(v.v, e) + rest;
      assert Encode(v, Optional(e)) + rest == BigEndian(1, 1) + tail;
      SignedRoundTrip(1, 1, tail);
      assert (BigEndian(1, 1) + tail)[1..] == tail;
      DecodeEncode(v.v, e, rest);
    }
  }

  lemma {:induction false} DecodeEncodeSequence(v: Value, e: Schema, rest: seq<byte>)
    requires HasType(v, Sequence(e))
    ensures DecodeSequence(Encode(v, Sequence(e)) + rest, e) == Ok(v, |Encode(v, Sequence(e))|)
    decreases e, 3
  {
    hide Decode;
    var tail := EncodeEach(v.items, e) + rest;
    assert Encode(v, Sequence(e)) + rest == BigEndian(|v.items|, 4) + tail;
    CountRoundTrip(|v.items|, tail);
    DecodeEncodeEach(v.items, e, rest);
  }

  lemma {:induction false} DecodeEncodeEnum(v: Value, cs: seq<Case>, rest: seq<byte>)
    requires HasType(v, Enum(cs))
    ensures DecodeEnum(Encode(v, Enum(cs)) + rest, cs) == Ok(v, |Encode(v, Enum(cs))|)
    decreases cs, 1
  {
    hide Encode;
    hide Decode;
    hide DecodeEnum;
    hide DecodeFields;
    hide EncodeFields;
    WrittenVariant(v, cs, rest);
    var fs := cs[v.index].fields;
    DecodeEncodeFields(v.items, fs, rest);
    ReadVariant(cs, v.index, v.items, EncodeFields(v.items, fs) + rest, |EncodeFields(v.items, fs)|);
  }

  lemma {:induction false} WrittenVariant(v: Value, cs: seq<Case>, rest: seq<byte>)
    requires HasType(v, Enum(cs))
    ensures v == Variant(v.index, v.items)
    ensures var m := EncodeFields(v.items, cs[v.index].fields);
            |Encode(v, Enum(cs))| == 4 + |m| && Encode(v, Enum(cs)) + rest == BigEndian(v.index + 1, 4) + (m + rest)
  {
    hide EncodeFields;
    hide BigEndian;
  }

  lemma {:induction false} ReadVariant(cs: seq<Case>, k: nat, vs: seq<Value>, m: seq<byte>, used: nat)
    requires k < |cs| && k < MAX_COUNT - 1 && DecodeFields(m, cs[k].fields) == Ok(vs, used)
    ensures DecodeEnum(BigEndian(k + 1, 4) + m, cs) == Ok(Variant(k, vs), 4 + used)
  {
    hide DecodeFields;
    CountRoundTrip(k + 1, m);
    hide ReadSigned;
  }

  lemma {:induction false} DecodeEncodeEach(vs: seq<Value>, e: Schema, rest: seq<byte>)
    requires HaveType(vs, e)
    ensures DecodeEach(EncodeEach(vs, e) + rest, e, |vs|) == Ok(vs, |EncodeEach(vs, e)|)
    decreases e, 2, |vs|
  {
    hide Decode;
    hide DecodeEach;
    hide Encode;
    hide HasType;
    if vs != [] {
      DecodeEncode(vs[0], e, EncodeEach(vs[1..], e) + rest);
      DecodeEncodeEach(vs[1..], e, rest);
      var (head, tail) := (Encode(vs[0], e), EncodeEach(vs[1..], e));
      var b := head + (tail + rest);
      assert EncodeEach(vs, e) + rest == b;
      assert b[|head|..] == tail + rest;
      DecodeEachCons(b, e, |vs|);
      assert [vs[0]] + vs[1..] == vs;
    }
  }

  lemma DecodeEachCons(b: seq<byte>, e: Schema, count: nat)
    requires count > 0 && Decode(b, e).Ok?
    ensures DecodeEach(b, e, count)
         == Resumed([Decode(b, e).value], Decode(b, e).used, DecodeEach(b[Decode(b, e).used..], e, count - 1))
  {
  }

  /** One more item read moves it from what is left to what is done. */
  lemma DecodeEachResume(done: seq<Value>, k: nat, b: seq<byte>, e: Schema, count: nat)
    requires count > 0
    ensures Resumed(done, k, DecodeEach(b, e, count)) == match Decode(b, e)
            case Fail(err) => Fail(err)
            case Ok(v, n) => Resumed(done + [v], k + n, DecodeEach(b[n..], e, count - 1))
  {
    hide Decode;
    if Decode(b, e).Ok? {
      DecodeEachCons(b, e, count);
      var (v, n) := (Decode(b, e).value, Decode(b, e).used);
      var rest := DecodeEach(b[n..], e, count - 1);
      if rest.Ok? {
        assert done + ([v] + rest.value) == (done + [v]) + rest.value;
      }
    }
  }

  lemma {:induction false} DecodeEncodeFields(vs: seq<Value>, fs: seq<Field>, rest: seq<byte>)
    requires HaveTypes(vs, fs)
    ensures DecodeFields(EncodeFields(vs, fs) + rest, fs) == Ok(vs, |EncodeFields(vs, fs)|)
    decreases fs, 0
  {
    hide Encode;
    hide HasType;
    hide Decode;
    if fs != [] {
      var b := EncodeFields(vs, fs) + rest;
      var tail := EncodeFields(vs[1..], fs[1..]) + rest;
      assert b == Encode(vs[0], fs[0].schema) + tail;
      DecodeEncode(vs[0], fs[0].schema, tail);
      assert b[|Encode(vs[0], fs[0].schema)|..] == tail;
      DecodeEncodeFields(vs[1..], fs[1..], rest);
      assert [vs[0]] + vs[1..] == vs;
    }
  }

  // ---------- A read depends only on the bytes it consumes ----------

  /** What `cut` bytes of an input that reads as `r` read as: the same, or an overflow when too few are left. */
  function Cut<T>(r: Parsed<T>, cut: nat): Parsed<T> {
    if r.Ok? && cut < r.used then Fail(BufferOverflow) else r
  }

  lemma ReadIntCut(b: seq<byte>, w: nat, k: nat)
    requires ReadInt(b, w).Ok? && k <= |b|
    ensures ReadInt(b[..k], w) == Cut(ReadInt(b, w), k)
    ensures ReadSigned(b[..k], w) == Cut(ReadSigned(b, w), k)
  {
    if w <= k { assert b[..k][..w] == b[..w]; }
  }

  /** The heart of the framing: cutting a readable buffer anywhere either changes nothing or overflows. */
  lemma {:induction false} DecodeCut(b: seq<byte>, s: Schema, k: nat)
    requires Decode(b, s).Ok? && k <= |b|
    ensures Decode(b[..k], s) == Cut(Decode(b, s), k)
    decreases s, 1
  {
    match s
    case Unsigned(w) => ReadIntCut(b, w, k);
    case Signed(w) => ReadIntCut(b, w, k);
    case Bits64 => ReadIntCut(b, 8, k);
    case Bool => ReadIntCut(b, 1, k);
    case Text => ReadTextCut(b, k);
    case Optional(e) => DecodeOptionalCut(b, e, k);
    case Sequence(e) => DecodeSequenceCut(b, e, k);
    case Record(fs) => DecodeFieldsCut(b, fs, k);
    case Enum(cs) => DecodeEnumCut(b, cs, k);
  }

  lemma ReadTextCut(b: seq<byte>, k: nat)
    requires ReadText(b).Ok? && k <= |b|
    ensures ReadText(b[..k]) == Cut(ReadText(b), k)
  {
    ReadIntCut(b, 4, k);
    var len := ReadSigned(b, 4).value;
    if 4 + len <= k { assert b[..k][4..4 + len] == b[4..4 + len]; }
  }

  lemma {:induction false} DecodeOptionalCut(b: seq<byte>, e: Schema, k: nat)
    requires DecodeOptional(b, e).Ok? && k <= |b|
    ensures DecodeOptional(b[..k], e) == Cut(DecodeOptional(b, e), k)
    decreases e, 3
  {
    hide Decode;
    ReadIntCut(b, 1, k);
    if 1 <= k && ReadSigned(b, 1).value == 1 {
      assert b[..k][1..] == b[1..][..k - 1];
      DecodeCut(b[1..], e, k - 1);
    }
  }

  lemma {:induction false} DecodeSequenceCut(b: seq<byte>, e: Schema, k: nat)
    requires DecodeSequence(b, e).Ok? && k <= |b|
    ensures DecodeSequence(b[..k], e) == Cut(DecodeSequence(b, e), k)
    decreases e, 3
  {
    hide Decode;
    ReadIntCut(b, 4, k);
    if 4 <= k {
      assert b[..k][4..] == b[4..][..k - 4];
      DecodeEachCut(b[4..], e, ReadSigned(b, 4).value, k - 4);
    }
  }

  lemma {:induction false} DecodeEnumCut(b: seq<byte>, cs: seq<Case>, k: nat)
    requires DecodeEnum(b, cs).Ok? && k <= |b|
    ensures DecodeEnum(b[..k], cs) == Cut(DecodeEnum(b, cs), k)
    decreases cs, 1
  {
    hide Decode;
    ReadIntCut(b, 4, k);
    if 4 <= k {
      assert b[..k][4..] == b[4..][..k - 4];
      DecodeFieldsCut(b[4..], cs[ReadSigned(b, 4).value - 1].fields, k - 4);
    }
  }

  lemma {:induction false} DecodeEachCut(b: seq<byte>, e: Schema, count: nat, k: nat)
    requires DecodeEach(b, e, count).Ok? && k <= |b|
    ensures DecodeEach(b[..k], e, count) == Cut(DecodeEach(b, e, count), k)
    decreases e, 2, count
  {
    hide Decode;
    if count > 0 {
      var n := Decode(b, e).used;
      DecodeEachCons(b, e, count);
      DecodeCut(b, e, k);
      if n <= k {
        assert b[..k][n..] == b[n..][..k - n];
        DecodeEachCut(b[n..], e, count - 1, k - n);
        DecodeEachCons(b[..k], e, count);
      }
    }
  }

  lemma {:induction false} DecodeFieldsCut(b: seq<byte>, fs: seq<Field>, k: nat)
    requires DecodeFields(b, fs).Ok? && k <= |b|
    ensures DecodeFields(b[..k], fs) == Cut(DecodeFields(b, fs), k)
    decreases fs, 0
  {
    hide Decode;
    if fs != [] {
      DecodeCut(b, fs[0].schema, k);
      var n := Decode(b, fs[0].schema).used;
      if n <= k {
        assert b[..k][n..] == b[n..][..k - n];
        DecodeFieldsCut(b[n..], fs[1..], k - n);
      }
    }
  }

  // ---------- Lift inverts lower, and accepts nothing else ----------

  /** `lift(lower(v))` is `v`; every strict prefix overflows; every non-empty extension is refused as incomplete. */
  lemma {:induction false} LiftLower(v: Value, s: Schema)
    requires HasType(v, s)
    ensures LiftBuffer(Lower(v, s), s) == Lift(v)
    ensures forall k | 0 <= k < |Lower(v, s)| :: LiftBuffer(Lower(v, s)[..k], s) == Throw(BufferOverflow)
    ensures forall ext: seq<byte> | ext != [] :: LiftBuffer(Lower(v, s) + ext, s) == Throw(IncompleteData)
  {
    hide Decode;
    hide Encode;
    hide HasType;
    var b := Lower(v, s);
    DecodeEncode(v, s, []);
    assert b + [] == b;
    forall k | 0 <= k < |b| ensures LiftBuffer(b[..k], s) == Throw(BufferOverflow) {
      DecodeCut(b, s, k);
    }
    forall ext: seq<byte> | ext != [] ensures LiftBuffer(b + ext, s) == Throw(IncompleteData) {
      DecodeEncode(v, s, ext);
    }
  }

  // ---------- Which bytes a lowered value has ----------

  /** A number is its digits in base 256, a negative one those of its two's complement. */
  lemma {:induction false} LoweredNumber(n: int, s: Schema)
    requires HasType(Number(n), s)
    ensures Spells(Lower(Number(n), s), n, if s.Bits64? then 8 else s.width)
  {
    SpellsBigEndian(Lower(Number(n), s), n, if s.Bits64? then 8 else s.width);
  }

  lemma {:induction false} ByteOf(n: byte)
    ensures BigEndian(n, 1) == [n]
  {
    assert BigEndian(n / 0x100, 0) == [];
  }

  /** A tag or count of four bytes in front of the rest. */
  ghost predicate Headed(b: seq<byte>, n: nat, rest: seq<byte>) {
    |b| >= 4 && Spells(b[..4], n, 4) && b[4..] == rest
  }

  lemma {:induction false} HeadedBy(n: nat, rest: seq<byte>)
    ensures Headed(BigEndian(n, 4) + rest, n, rest)
  {
    var b := BigEndian(n, 4) + rest;
    assert b[..4] == BigEndian(n, 4);
    SpellsBigEndian(b[..4], n, 4);
  }

  /** A flag is the byte 0 or 1, an optional value the byte 0 or the byte 1 and the value. */
  lemma {:induction false} LoweredOptional(v: Value, e: Schema)
    requires HasType(v, e)
    ensures Lower(Nothing, Optional(e)) == [0] && Lower(Just(v), Optional(e)) == [1] + Lower(v, e)
    ensures Lower(Flag(false), Bool) == [0] && Lower(Flag(true), Bool) == [1]
  {
    ByteOf(0);
    ByteOf(1);
    hide BigEndian;
  }

  /** A string is its length in bytes and its UTF-8, a list its length and its elements, a variant its number,
   * counted from
    * 1, and its fields.
    */
  lemma {:induction false} LoweredHeads(v: Value, s: Schema)
    requires HasType(v, s)
    ensures s.Text? ==> Headed(Lower(v, s), |EncodeUtf8(v.s)|, EncodeUtf8(v.s))
    ensures s.Sequence? ==> Headed(Lower(v, s), |v.items|, EncodeEach(v.items, s.elem))
    ensures s.Enum? ==> Headed(Lower(v, s), v.index + 1, Lower(List(v.items), Record(s.cases[v.index].fields)))
  {
    if s.Text? { HeadedBy(|EncodeUtf8(v.s)|, EncodeUtf8(v.s)); }
    if s.Sequence? { HeadedBy(|v.items|, EncodeEach(v.items, s.elem)); }
    if s.Enum? { HeadedBy(v.index + 1, EncodeFields(v.items, s.cases[v.index].fields)); }
    hide Headed;
  }

  /** Elements follow each other in order with nothing between them, and so do fields. */
  lemma {:induction false} LoweredInOrder(before: seq<Value>, v: Value, after: seq<Value>, e: Schema)
    requires HaveType(before + [v] + after, e)
    ensures HaveType(before, e) && HasType(v, e) && HaveType(after, e)
    ensures EncodeEach(before + [v] + after, e) == EncodeEach(before, e) + Lower(v, e) + EncodeEach(after, e)
  {
    hide Encode;
    hide HasType;
    var vs := before + [v] + after;
    if before == [] {
      assert vs[0] == v && vs[1..] == after;
    } else {
      assert vs[0] == before[0] && vs[1..] == before[1..] + [v] + after;
      LoweredInOrder(before[1..], v, after, e);
      Texts.Associative(Lower(before[0], e), EncodeEach(before[1..], e) + Lower(v, e), EncodeEach(after, e));
      Texts.Associative(Lower(before[0], e), EncodeEach(before[1..], e), Lower(v, e));
    }
  }

  lemma {:induction false} FieldsInOrder(vs: seq<Value>, fs: seq<Field>, ws: seq<Value>, gs: seq<Field>)
    requires HaveTypes(vs, fs) && HaveTypes(ws, gs)
    ensures HaveTypes(vs + ws, fs + gs)
    ensures Lower(List(vs + ws), Record(fs + gs)) == Lower(List(vs), Record(fs)) + Lower(List(ws), Record(gs))
    decreases fs
  {
    hide Encode;
    hide HasType;
    FieldsAppended(vs, fs, ws, gs);
    OfRecord(vs + ws, fs + gs);
    OfRecord(vs, fs);
    OfRecord(ws, gs);
  }

  lemma {:induction false} OfRecord(vs: seq<Value>, fs: seq<Field>)
    requires HaveTypes(vs, fs)
    ensures HasType(List(vs), Record(fs)) && Lower(List(vs), Record(fs)) == EncodeFields(vs, fs)
  {
    hide EncodeFields;
  }

  lemma {:induction false} FieldsAppended(vs: seq<Value>, fs: seq<Field>, ws: seq<Value>, gs: seq<Field>)
    requires HaveTypes(vs, fs) && HaveTypes(ws, gs)
    ensures HaveTypes(vs + ws, fs + gs) && EncodeFields(vs + ws, fs + gs) == EncodeFields(vs, fs) + EncodeFields(ws, gs)
    decreases fs
  {
    hide Encode;
    hide HasType;
    if fs == [] {
      assert vs + ws == ws && fs + gs == gs;
    } else {
      assert (vs + ws)[0] == vs[0] && (vs + ws)[1..] == vs[1..] + ws;
      assert (fs + gs)[0] == fs[0] && (fs + gs)[1..] == fs[1..] + gs;
      FieldsAppended(vs[1..], fs[1..], ws, gs);
      Texts.Associative(Encode(vs[0], fs[0].schema), EncodeFields(vs[1..], fs[1..]), EncodeFields(ws, gs));
    }
  }

  /** A record of one field is that field. */
  lemma {:induction false} LoneField(v: Value, f: Field)
    requires HasType(v, f.schema)
    ensures HasType(List([v]), Record([f])) && Lower(List([v]), Record([f])) == Lower(v, f.schema)
  {
    assert [v][1..] == [] && [f][1..] == [];
    assert EncodeFields([v], [f]) == Encode(v, f.schema) + EncodeFields([], []);
    hide Encode;
    hide HasType;
    OfRecord([v], [f]);
  }

  lemma TagRead(b: seq<byte>)
    requires b != []
    ensures ReadSigned(b, 1) == Ok(if b[0] < 0x80 then b[0] else b[0] as int - 0x100, 1)
  {
    assert b[..1][..0] == [];
    Pow256Values();
  }

  /** The sign of a count is the top bit of its first byte. */
  lemma CountRead(b: seq<byte>)
    requires |b| >= 4
    ensures ReadSigned(b, 4).Ok? && (ReadSigned(b, 4).value < 0 <==> b[0] >= 0x80)
    ensures b[0] < 0x80 ==> ReadSigned(b, 4).value == FromBigEndian(b[..4])
  {
    Pow256Values();
    var c := b[..4];
    assert c[..3][..2] == c[..2] && c[..2][..1] == c[..1] && c[..1][..0] == [];
    assert FromBigEndian(c[..1]) == c[0];
    assert FromBigEndian(c[..2]) == FromBigEndian(c[..1]) * 0x100 + c[1];
    assert FromBigEndian(c[..3]) == FromBigEndian(c[..2]) * 0x100 + c[2];
    assert FromBigEndian(c) == FromBigEndian(c[..3]) * 0x100 + c[3];
  }

  /** A tag no value has is refused by its own error. */
  lemma {:induction false} BadTags(b: seq<byte>, s: Schema)
    ensures s.Optional? && b != [] && b[0] > 1 ==> LiftBuffer(b, s) == Throw(UnexpectedOptionalTag)
    ensures s.Enum? && |b| >= 4 && (b[0] >= 0x80 || !(1 <= FromBigEndian(b[..4]) <= |s.cases|)) ==>
              LiftBuffer(b, s) == Throw(UnexpectedEnumCase)
  {
    if s.Optional? && b != [] {
      TagRead(b);
      assert Decode(b, s) == DecodeOptional(b, s.elem);
    }
    if s.Enum? && |b| >= 4 {
      CountRead(b);
      assert Decode(b, s) == DecodeEnum(b, s.cases);
    }
  }

  /** A negative count and bytes that are no UTF-8 stop the program. */
  lemma {:induction false} BadCounts(b: seq<byte>, s: Schema)
    requires |b| >= 4 && (s.Sequence? || s.Text?)
    ensures b[0] >= 0x80 ==> LiftBuffer(b, s) == Throw(Trap)
    ensures s.Text? && b[0] < 0x80 && |b| == 4 + FromBigEndian(b[..4]) && DecodeUtf8(b[4..]).None? ==>
              LiftBuffer(b, s) == Throw(Trap)
  {
    CountRead(b);
    assert b[4..|b|] == b[4..];
    if s.Sequence? {
      assert Decode(b, s) == DecodeSequence(b, s.elem);
    } else {
      assert Decode(b, s) == DecodeText(b);
    }
    hide DecodeUtf8;
  }

  /** Whether a Bool can occur in values of `s`. */
  predicate HasBool(s: Schema)
    decreases s, 1
  {
    match s
    case Bool => true
    case Optional(e) => HasBool(e)
    case Sequence(e) => HasBool(e)
    case Record(fs) => FieldsHaveBool(fs)
    case Enum(cs) => exists i :: 0 <= i < |cs| && FieldsHaveBool(cs[i].fields)
    case _ => false
  }

  predicate FieldsHaveBool(fs: seq<Field>)
    decreases fs, 0
  {
    fs != [] && (HasBool(fs[0].schema) || FieldsHaveBool(fs[1..]))
  }

  /** The integer widths that occur are positive: a converter exists for 1, 4 and 8 bytes only. */
  predicate Sized(s: Schema)
    decreases s, 1
  {
    match s
    case Signed(w) => w > 0
    case Optional(e) => Sized(e)
    case Sequence(e) => Sized(e)
    case Record(fs) => FieldsSized(fs)
    case Enum(cs) => |cs| < MAX_COUNT && forall i :: 0 <= i < |cs| ==> FieldsSized(cs[i].fields)
    case _ => true
  }

  predicate FieldsSized(fs: seq<Field>)
    decreases fs, 0
  {
    fs == [] || (Sized(fs[0].schema) && FieldsSized(fs[1..]))
  }

  lemma {:induction false} Pow256Even(w: nat)
    requires w > 0
    ensures Pow256(w) % 2 == 0
  {
  }

  /** A signed read is the inverse of a signed write on every input, not only on written ones. */
  lemma {:induction false} ReadSignedInverse(b: seq<byte>, w: nat)
    requires w > 0 && |b| >= w
    ensures var r := ReadSigned(b, w);
            r.Ok? && r.used == w && -Half(w) <= r.value < Half(w) && BigEndian(r.value, w) == b[..w]
  {
    Pow256Even(w);
    FromBigEndianRoundTrip(b[..w]);
    var u := FromBigEndian(b[..w]);
    if u >= Half(w) { BigEndianWraps(u - Pow256(w), w); }
  }

  /** Every byte read as a Bool is one a Bool is written as. */
  predicate Canon(b: seq<byte>, s: Schema)
    requires Decode(b, s).Ok?
    decreases s, 1
  {
    match s
    case Bool => b[0] <= 1
    case Optional(e) => CanonOptional(b, e)
    case Sequence(e) => CanonSequence(b, e)
    case Record(fs) => CanonRecord(b, fs)
    case Enum(cs) => CanonEnum(b, cs)
    case _ => true
  }

  predicate CanonOptional(b: seq<byte>, e: Schema)
    requires DecodeOptional(b, e).Ok?
    decreases e, 3
  {
    ReadSigned(b, 1).value == 0 || Canon(b[1..], e)
  }

  predicate CanonSequence(b: seq<byte>, e: Schema)
    requires DecodeSequence(b, e).Ok?
    decreases e, 3
  {
    CanonEach(b[4..], e, ReadSigned(b, 4).value)
  }

  predicate CanonRecord(b: seq<byte>, fs: seq<Field>)
    requires DecodeRecord(b, fs).Ok?
    decreases fs, 1
  {
    CanonFields(b, fs)
  }

  predicate CanonEnum(b: seq<byte>, cs: seq<Case>)
    requires DecodeEnum(b, cs).Ok?
    decreases cs, 1
  {
    CanonFields(b[4..], cs[ReadSigned(b, 4).value - 1].fields)
  }

  predicate CanonEach(b: seq<byte>, e: Schema, count: nat)
    requires DecodeEach(b, e, count).Ok?
    decreases e, 2, count
  {
    count == 0 || (Canon(b, e) && CanonEach(b[Decode(b, e).used..], e, count - 1))
  }

  predicate CanonFields(b: seq<byte>, fs: seq<Field>)
    requires DecodeFields(b, fs).Ok?
    decreases fs, 0
  {
    fs == [] || (Canon(b, fs[0].schema) && CanonFields(b[Decode(b, fs[0].schema).used..], fs[1..]))
  }

  /** `written` is as long as the bytes read, and is those bytes exactly when `canon`. */
  ghost predicate Rewrites(written: seq<byte>, b: seq<byte>, used: nat, canon: bool) {
    used <= |b| && |written| == used && (written == b[..used] <==> canon)
  }

  /** A reader only ever produces in-range values, and writing one again gives as many bytes, the very same ones
    * exactly when no Bool among them was read from a byte other than 0 and 1.
    */
  lemma {:induction false} EncodeDecode(b: seq<byte>, s: Schema)
    requires Sized(s) && Decode(b, s).Ok?
    ensures HasType(Decode(b, s).value, s)
    ensures Rewrites(Encode(Decode(b, s).value, s), b, Decode(b, s).used, Canon(b, s))
    decreases s, 1
  {
    match s
    case Unsigned(w) => FromBigEndianRoundTrip(b[..w]);
    case Signed(w) => ReadSignedInverse(b, w);
    case Bits64 => FromBigEndianRoundTrip(b[..8]);
    case Bool => EncodeDecodeBool(b);
    case Text => EncodeDecodeText(b);
    case Optional(e) => EncodeDecodeOptional(b, e);
    case Sequence(e) => EncodeDecodeSequence(b, e);
    case Record(fs) => EncodeDecodeFields(b, fs);
    case Enum(cs) => EncodeDecodeEnum(b, cs);
  }

  lemma EncodeDecodeBool(b: seq<byte>)
    requires DecodeBool(b).Ok?
    ensures |b| > 0 && DecodeBool(b) == Ok(Flag(b[0] != 0), 1)
    ensures Rewrites(BigEndian(if b[0] != 0 then 1 else 0, 1), b, 1, b[0] <= 1)
  {
    assert b[..1] == [b[0]] && b[..1][..0] == [];
    assert FromBigEndian(b[..1]) == b[0];
    assert BigEndian(if b[0] != 0 then 1 else 0, 1) == [if b[0] != 0 then 1 else 0];
  }

  lemma EncodeDecodeText(b: seq<byte>)
    requires ReadText(b).Ok?
    ensures var (t, n) := (ReadText(b).value, ReadText(b).used);
            |EncodeUtf8(t)| < MAX_COUNT && BigEndian(|EncodeUtf8(t)|, 4) + EncodeUtf8(t) == b[..n]
  {
    Pow256Values();
    ReadSignedInverse(b, 4);
    var n := ReadText(b).used;
    EncodeDecodeUtf8(b[4..n]);
    assert b[..n] == b[..4] + b[4..n];
  }

  /** Two readings one after the other. */
  lemma RewritesBoth(first: seq<byte>, rest: seq<byte>, b: seq<byte>, n: nat, m: nat, canon: bool, canonRest: bool)
    requires Rewrites(first, b, n, canon) && Rewrites(rest, b[n..], m, canonRest)
    ensures Rewrites(first + rest, b, n + m, canon && canonRest)
  {
    assert b[..n + m] == b[..n] + b[n..][..m];
    assert (first + rest)[..n] == first && (first + rest)[n..] == rest;
    assert b[..n + m][..n] == b[..n] && b[..n + m][n..] == b[n..][..m];
  }

  lemma {:induction false} EncodeDecodeOptional(b: seq<byte>, e: Schema)
    requires Sized(e) && DecodeOptional(b, e).Ok?
    ensures var r := DecodeOptional(b, e);
            HasType(r.value, Optional(e)) && Rewrites(Encode(r.value, Optional(e)), b, r.used, CanonOptional(b, e))
    decreases e, 3
  {
    hide Rewrites;
    ReadSignedInverse(b, 1);
    var tag := BigEndian(ReadSigned(b, 1).value, 1);
    Rewritten(tag, b, 1);
    if ReadSigned(b, 1).value == 1 {
      EncodeDecode(b[1..], e);
      var r := Decode(b[1..], e);
      RewritesBoth(tag, Encode(r.value, e), b, 1, r.used, true, Canon(b[1..], e));
    }
    hide ReadSigned;
    hide BigEndian;
  }

  lemma Rewritten(written: seq<byte>, b: seq<byte>, used: nat)
    requires used <= |b| && written == b[..used]
    ensures Rewrites(written, b, used, true)
  {
  }

  lemma {:induction false} SequenceParts(b: seq<byte>, e: Schema)
    requires DecodeSequence(b, e).Ok?
    ensures ReadSigned(b, 4).Ok? && 0 <= ReadSigned(b, 4).value && |b| >= 4
    ensures var r := DecodeEach(b[4..], e, ReadSigned(b, 4).value);
            r.Ok? && DecodeSequence(b, e) == Ok(List(r.value), 4 + r.used)
  {
    hide DecodeEach;
    hide FromBigEndian;
  }

  lemma {:induction false} SequenceWritten(vs: seq<Value>, e: Schema)
    requires |vs| < MAX_COUNT && HaveType(vs, e)
    ensures HasType(List(vs), Sequence(e)) && Encode(List(vs), Sequence(e)) == BigEndian(|vs|, 4) + EncodeEach(vs, e)
  {
    hide HaveType;
    hide BigEndian;
    hide EncodeEach;
  }

  lemma {:induction false} EncodeDecodeSequence(b: seq<byte>, e: Schema)
    requires Sized(e) && DecodeSequence(b, e).Ok?
    ensures var r := DecodeSequence(b, e);
            HasType(r.value, Sequence(e)) && Rewrites(Encode(r.value, Sequence(e)), b, r.used, CanonSequence(b, e))
    decreases e, 3
  {
    Pow256Values();
    SequenceParts(b, e);
    ReadSignedInverse(b, 4);
    hide ReadSigned;
    hide BigEndian;
    hide DecodeSequence;
    hide DecodeEach;
    hide EncodeEach;
    hide Encode;
    hide HasType;
    hide HaveType;
    hide CanonEach;
    hide Sized;
    hide Rewrites;
    var count := ReadSigned(b, 4).value;
    var r := DecodeEach(b[4..], e, count);
    EncodeDecodeEach(b[4..], e, count);
    SequenceWritten(r.value, e);
    Rewritten(BigEndian(count, 4), b, 4);
    RewritesBoth(BigEndian(count, 4), EncodeEach(r.value, e), b, 4, r.used, true, CanonEach(b[4..], e, count));
  }

  lemma {:induction false} EncodeDecodeEnum(b: seq<byte>, cs: seq<Case>)
    requires Sized(Enum(cs)) && DecodeEnum(b, cs).Ok?
    ensures var r := DecodeEnum(b, cs);
            HasType(r.value, Enum(cs)) && Rewrites(Encode(r.value, Enum(cs)), b, r.used, CanonEnum(b, cs))
    decreases cs, 1
  {
    Pow256Values();
    ReadSignedInverse(b, 4);
    hide ReadSigned;
    hide BigEndian;
    hide DecodeFields;
    hide EncodeFields;
    hide CanonFields;
    hide Rewrites;
    var tag := ReadSigned(b, 4).value;
    var fs := cs[tag - 1].fields;
    var r := DecodeFields(b[4..], fs);
    EncodeDecodeFields(b[4..], fs);
    Rewritten(BigEndian(tag, 4), b, 4);
    RewritesBoth(BigEndian(tag, 4), EncodeFields(r.value, fs), b, 4, r.used, true, CanonFields(b[4..], fs));
  }

  lemma {:induction false} EncodeDecodeEach(b: seq<byte>, e: Schema, count: nat)
    requires Sized(e) && DecodeEach(b, e, count).Ok?
    ensures var r := DecodeEach(b, e, count);
            |r.value| == count && HaveType(r.value, e) &&
            Rewrites(EncodeEach(r.value, e), b, r.used, CanonEach(b, e, count))
    decreases e, 2, count
  {
    hide Decode;
    hide Encode;
    hide HasType;
    hide Canon;
    hide Sized;
    if count == 0 {
      Rewritten([], b, 0);
    } else {
      hide Rewrites;
      EncodeDecode(b, e);
      var (first, n) := (Decode(b, e).value, Decode(b, e).used);
      EachParts(b, e, count);
      EncodeDecodeEach(b[n..], e, count - 1);
      var rest := DecodeEach(b[n..], e, count - 1);
      EachWritten(first, rest.value, e);
      hide DecodeEach;
      hide EncodeEach;
      hide HaveType;
      RewritesBoth(Encode(first, e), EncodeEach(rest.value, e), b, n, rest.used, Canon(b, e),
        CanonEach(b[n..], e, count - 1));
    }
  }

  lemma EachParts(b: seq<byte>, e: Schema, count: nat)
    requires count > 0 && DecodeEach(b, e, count).Ok?
    ensures Decode(b, e).Ok?
    ensures var rest := DecodeEach(b[Decode(b, e).used..], e, count - 1);
            rest.Ok? && DecodeEach(b, e, count) == Ok([Decode(b, e).value] + rest.value, Decode(b, e).used + rest.used)
  {
    hide Decode;
  }

  lemma {:induction false} EachWritten(first: Value, rest: seq<Value>, e: Schema)
    requires HasType(first, e) && HaveType(rest, e)
    ensures HaveType([first] + rest, e) && EncodeEach([first] + rest, e) == Encode(first, e) + EncodeEach(rest, e)
  {
    hide HasType;
    hide Encode;
    assert ([first] + rest)[1..] == rest;
  }

  lemma {:induction false} EncodeDecodeFields(b: seq<byte>, fs: seq<Field>)
    requires FieldsSized(fs) && DecodeFields(b, fs).Ok?
    ensures var r := DecodeFields(b, fs);
            HaveTypes(r.value, fs) && Rewrites(EncodeFields(r.value, fs), b, r.used, CanonFields(b, fs))
    decreases fs, 0
  {
    hide Decode;
    hide Encode;
    hide HasType;
    hide Canon;
    hide Sized;
    if fs == [] {
      Rewritten([], b, 0);
    } else {
      hide Rewrites;
      var s := fs[0].schema;
      EncodeDecode(b, s);
      var (first, n) := (Decode(b, s).value, Decode(b, s).used);
      EncodeDecodeFields(b[n..], fs[1..]);
      var (r, rest) := (DecodeFields(b, fs), DecodeFields(b[n..], fs[1..]));
      assert r.value == [first] + rest.value && r.value[1..] == rest.value;
      RewritesBoth(Encode(first, s), EncodeFields(rest.value, fs[1..]), b, n, rest.used, Canon(b, s),
        CanonFields(b[n..], fs[1..]));
    }
  }

  // ---------- Exactly which buffers are lowered values ----------

  /** A buffer is some value lowered exactly when it lifts and every Bool in it is 0 or 1. */
  lemma {:induction false} LiftIsExactIff(b: seq<byte>, s: Schema)
    requires Sized(s)
    ensures LiftBuffer(b, s).Lift? && Canon(b, s) <==> exists v :: HasType(v, s) && Lower(v, s) == b
  {
    hide Decode;
    hide Encode;
    hide HasType;
    hide Canon;
    hide Sized;
    if LiftBuffer(b, s).Lift? {
      EncodeDecode(b, s);
      assert b[..|b|] == b;
      if Canon(b, s) {
        assert HasType(Decode(b, s).value, s) && Lower(Decode(b, s).value, s) == b;
      }
    }
    if v :| HasType(v, s) && Lower(v, s) == b {
      LiftLower(v, s);
    }
  }

  /** Without Bools every reading is canonical. */
  lemma {:induction false} NoBoolsCanon(b: seq<byte>, s: Schema)
    requires !HasBool(s) && Decode(b, s).Ok?
    ensures Canon(b, s)
    decreases s, 1
  {
    match s
    case Optional(e) => if ReadSigned(b, 1).value != 0 { NoBoolsCanon(b[1..], e); }
    case Sequence(e) => NoBoolsCanonEach(b[4..], e, ReadSigned(b, 4).value);
    case Record(fs) => NoBoolsCanonFields(b, fs);
    case Enum(cs) => NoBoolsCanonFields(b[4..], cs[ReadSigned(b, 4).value - 1].fields);
    case _ =>
  }

  lemma {:induction false} NoBoolsCanonEach(b: seq<byte>, e: Schema, count: nat)
    requires !HasBool(e) && DecodeEach(b, e, count).Ok?
    ensures CanonEach(b, e, count)
    decreases e, 2, count
  {
    if count > 0 {
      NoBoolsCanon(b, e);
      NoBoolsCanonEach(b[Decode(b, e).used..], e, count - 1);
    }
  }

  lemma {:induction false} NoBoolsCanonFields(b: seq<byte>, fs: seq<Field>)
    requires !FieldsHaveBool(fs) && DecodeFields(b, fs).Ok?
    ensures CanonFields(b, fs)
    decreases fs, 0
  {
    if fs != [] {
      NoBoolsCanon(b, fs[0].schema);
      NoBoolsCanonFields(b[Decode(b, fs[0].schema).used..], fs[1..]);
    }
  }

  /** A type without Bools lifts exactly the buffers its `lower` produces. */
  lemma {:induction false} LiftIsExact(b: seq<byte>, s: Schema)
    requires Sized(s) && !HasBool(s)
    ensures LiftBuffer(b, s).Lift? <==> exists v :: HasType(v, s) && Lower(v, s) == b
  {
    hide Decode;
    hide Canon;
    hide Sized;
    hide HasBool;
    hide HasType;
    hide Encode;
    LiftIsExactIff(b, s);
    if Decode(b, s).Ok? { NoBoolsCanon(b, s); }
  }

  /** Nothing lifts but what some value is lowered to. */
  ghost predicate Exact(s: Schema) {
    forall b :: LiftBuffer(b, s).Lift? ==> exists v :: HasType(v, s) && Lower(v, s) == b
  }

  lemma {:induction false} ExactWithoutBools(s: Schema)
    requires Sized(s) && !HasBool(s)
    ensures Exact(s)
  {
    hide LiftBuffer;
    hide HasType;
    hide Lower;
    hide Sized;
    hide HasBool;
    forall b | LiftBuffer(b, s).Lift? ensures exists v :: HasType(v, s) && Lower(v, s) == b {
      LiftIsExact(b, s);
    }
  }

  /** A record value with a Bool set, written with some other nonzero byte for it. */
  function Misspelt(vs: seq<Value>, fs: seq<Field>, i: nat, k: byte): seq<byte>
    requires HaveTypes(vs, fs) && i < |fs| && fs[i].schema == Bool
    decreases i
  {
    if i == 0 then [k] + EncodeFields(vs[1..], fs[1..])
    else Encode(vs[0], fs[0].schema) + Misspelt(vs[1..], fs[1..], i - 1, k)
  }

  lemma {:induction false} TypesAligned(vs: seq<Value>, fs: seq<Field>)
    requires HaveTypes(vs, fs)
    ensures |vs| == |fs|
  {
    if fs != [] { TypesAligned(vs[1..], fs[1..]); }
  }

  lemma {:induction false} MisspeltReads(vs: seq<Value>, fs: seq<Field>, i: nat, k: byte, rest: seq<byte>)
    requires HaveTypes(vs, fs) && |vs| == |fs| && i < |fs| && fs[i].schema == Bool && vs[i] == Flag(true) && k > 1
    ensures var b := Misspelt(vs, fs, i, k);
            DecodeFields(b + rest, fs) == Ok(vs, |b|) && b != EncodeFields(vs, fs) && |b| == |EncodeFields(vs, fs)|
    decreases i
  {
    assert vs == [vs[0]] + vs[1..];
    if i == 0 {
      BoolMisspelt(vs, fs, k, rest);
    } else {
      hide Encode;
      hide Decode;
      hide HasType;
      var (head, sub) := (Encode(vs[0], fs[0].schema), Misspelt(vs[1..], fs[1..], i - 1, k));
      assert Misspelt(vs, fs, i, k) == head + sub;
      hide Misspelt;
      MisspeltReads(vs[1..], fs[1..], i - 1, k, rest);
      DecodeEncode(vs[0], fs[0].schema, sub + rest);
      HeadThenRest(head, sub, EncodeFields(vs[1..], fs[1..]), rest);
    }
  }

  lemma HeadThenRest(head: seq<byte>, sub: seq<byte>, tail: seq<byte>, rest: seq<byte>)
    ensures head + sub + rest == head + (sub + rest) && (head + (sub + rest))[|head|..] == sub + rest
    ensures sub != tail ==> head + sub != head + tail
  {
    assert (head + sub)[|head|..] == sub && (head + tail)[|head|..] == tail;
  }

  lemma {:induction false} BoolMisspelt(vs: seq<Value>, fs: seq<Field>, k: byte, rest: seq<byte>)
    requires HaveTypes(vs, fs) && fs != [] && fs[0].schema == Bool && vs[0] == Flag(true) && k > 1
    ensures var b := [k] + EncodeFields(vs[1..], fs[1..]);
            DecodeFields(b + rest, fs) == Ok(vs, |b|) && b != EncodeFields(vs, fs) && |b| == |EncodeFields(vs, fs)|
  {
    var tail := EncodeFields(vs[1..], fs[1..]);
    DecodeEncodeFields(vs[1..], fs[1..], rest);
    OneByte(k, tail + rest);
    OneByte(1, tail);
    hide EncodeFields;
    HeadThenRest([k], tail, tail, rest);
    assert vs == [vs[0]] + vs[1..];
    assert EncodeFields(vs, fs) == [1] + tail by { EncodeFirst(vs, fs); }
    hide DecodeFields;
    assert DecodeFields([k] + (tail + rest), fs) == Ok(vs, 1 + |tail|) by {
      DecodeFirst([k] + (tail + rest), fs);
    }
    assert ([k] + tail)[0] != ([1] + tail)[0];
  }

  lemma {:induction false} EncodeFirst(vs: seq<Value>, fs: seq<Field>)
    requires fs != [] && HaveTypes(vs, fs)
    ensures EncodeFields(vs, fs) == Encode(vs[0], fs[0].schema) + EncodeFields(vs[1..], fs[1..])
  {
  }

  lemma {:induction false} DecodeFirst(b: seq<byte>, fs: seq<Field>)
    requires fs != [] && Decode(b, fs[0].schema).Ok?
    requires DecodeFields(b[Decode(b, fs[0].schema).used..], fs[1..]).Ok?
    ensures var (first, n) := (Decode(b, fs[0].schema).value, Decode(b, fs[0].schema).used);
            var rest := DecodeFields(b[n..], fs[1..]);
            DecodeFields(b, fs) == Ok([first] + rest.value, n + rest.used)
  {
    hide Decode;
  }

  lemma OneByte(k: byte, rest: seq<byte>)
    ensures ReadInt([k] + rest, 1) == Ok(k as int, 1) && ([k] + rest)[1..] == rest && BigEndian(1, 1) == [1]
  {
    assert ([k] + rest)[..1] == [k] && [k][..0] == [];
    assert FromBigEndian([k]) == k;
  }

  /** Every record value with a Bool set has a second buffer that lifts to it and that no value is lowered to. */
  lemma {:induction false} SecondBuffer(vs: seq<Value>, fs: seq<Field>, i: nat, k: byte)
    requires HaveTypes(vs, fs) && |vs| == |fs| && i < |fs| && fs[i].schema == Bool && vs[i] == Flag(true) && k > 1
    ensures LiftBuffer(Misspelt(vs, fs, i, k), Record(fs)) == Lift(List(vs))
    ensures forall v :: HasType(v, Record(fs)) ==> Lower(v, Record(fs)) != Misspelt(vs, fs, i, k)
  {
    var b := Misspelt(vs, fs, i, k);
    MisspeltReads(vs, fs, i, k, []);
    assert b + [] == b;
    assert HasType(List(vs), Record(fs)) && Lower(List(vs), Record(fs)) == EncodeFields(vs, fs);
    assert Decode(b, Record(fs)) == Ok(List(vs), |b|);
    OnlyLowered(b, List(vs), Record(fs));
  }

  /** A buffer that lifts to a value but is not that value lowered is no value lowered. */
  lemma {:induction false} OnlyLowered(b: seq<byte>, w: Value, s: Schema)
    requires LiftBuffer(b, s) == Lift(w) && HasType(w, s) && Lower(w, s) != b
    ensures forall v :: HasType(v, s) ==> Lower(v, s) != b
  {
    hide LiftBuffer;
    hide HasType;
    hide Lower;
    forall v | HasType(v, s) ensures Lower(v, s) != b {
      LiftLower(v, s);
    }
  }

  lemma {:induction false} SingleField(vs: seq<Value>, fs: seq<Field>, m: seq<byte>)
    requires |vs| == 1 && |fs| == 1 && HasType(vs[0], fs[0].schema) && Decode(m, fs[0].schema) == Ok(vs[0], |m|)
    ensures HaveTypes(vs, fs) && EncodeFields(vs, fs) == Encode(vs[0], fs[0].schema) &&
            DecodeFields(m, fs) == Ok(vs, |m|)
  {
    hide HasType;
    hide Decode;
    hide Encode;
    assert vs[1..] == [] && fs[1..] == [] && m[|m|..] == [] && vs == [vs[0]];
    assert HaveTypes(vs, fs);
    EncodeFirst(vs, fs);
    assert EncodeFields(vs[1..], fs[1..]) == [];
    assert Encode(vs[0], fs[0].schema) + [] == Encode(vs[0], fs[0].schema);
    assert DecodeFields(m[|m|..], fs[1..]) == Ok([], 0);
    DecodeFirst(m, fs);
    assert [vs[0]] + [] == vs;
  }

  lemma {:induction false} DecodeVariant(cs: seq<Case>, k: nat, vs: seq<Value>, m: seq<byte>)
    requires k < |cs| < MAX_COUNT && DecodeFields(m, cs[k].fields) == Ok(vs, |m|)
    ensures LiftBuffer(BigEndian(k + 1, 4) + m, Enum(cs)) == Lift(Variant(k, vs))
  {
    var b := BigEndian(k + 1, 4) + m;
    ReadVariant(cs, k, vs, m, |m|);
    assert Decode(b, Enum(cs)) == DecodeEnum(b, cs);
    hide DecodeEnum;
  }

  /** The same for a variant whose payload is such a record. */
  lemma {:induction false} VariantSecondBuffer(cs: seq<Case>, k: nat, vs: seq<Value>, m: seq<byte>)
    requires k < |cs| < MAX_COUNT && |cs[k].fields| == 1 && cs[k].fields[0].schema.Record?
    requires var fs := cs[k].fields[0].schema.fields;
             HaveTypes(vs, fs) && DecodeFields(m, fs) == Ok(vs, |m|) && m != EncodeFields(vs, fs)
    ensures var b := BigEndian(k + 1, 4) + m;
            LiftBuffer(b, Enum(cs)) == Lift(Variant(k, [List(vs)])) &&
            forall v :: HasType(v, Enum(cs)) ==> Lower(v, Enum(cs)) != b
  {
    var (items, fs) := ([List(vs)], cs[k].fields);
    assert HasType(items[0], fs[0].schema) && Decode(m, fs[0].schema) == Ok(items[0], |m|);
    assert Encode(items[0], fs[0].schema) == EncodeFields(vs, fs[0].schema.fields);
    SingleField(items, fs, m);
    DecodeVariant(cs, k, items, m);
    var (w, tag) := (Variant(k, items), BigEndian(k + 1, 4));
    assert HasType(w, Enum(cs)) && Lower(w, Enum(cs)) == tag + EncodeFields(items, fs);
    hide HasType;
    hide Lower;
    hide LiftBuffer;
    hide EncodeFields;
    hide HaveTypes;
    hide DecodeFields;
    HeadThenRest(tag, m, EncodeFields(vs, fs[0].schema.fields), []);
    OnlyLowered(tag + m, w, Enum(cs));
  }

  // ---------- The converters as they run ----------

  /** The growing `[UInt8]` every `write` appends to, on a host of either byte order. */
  class Writer {
    const littleEndian: bool
    var buf: seq<byte>

    constructor (littleEndian: bool)
      ensures buf == [] && this.littleEndian == littleEndian
    {
      this.littleEndian, buf := littleEndian, [];
    }

    /** Swaps the variable's bytes if the host needs it and appends its memory: the same bytes on every host. */
    method WriteInt(n: int, w: nat)
      modifies this
      ensures buf == old(buf) + BigEndian(n, w)
      ensures Spells(buf[|old(buf)|..], n, w)
    {
      var value := BigEndianOf(n, w, littleEndian);
      buf := buf + InMemory(value, w, littleEndian);
      WrittenBytes(n, w, littleEndian);
      SpellsBigEndian(buf[|old(buf)|..], n, w);
    }

    method WriteBytes(b: seq<byte>)
      modifies this
      ensures buf == old(buf) + b
    {
      buf := buf + b;
    }

    method Write(v: Value, s: Schema)
      requires HasType(v, s)
      modifies this
      ensures buf == old(buf) + Encode(v, s)
      decreases s, 1
    {
      hide Spells;
      hide BigEndian;
      hide EncodeUtf8;
      hide EncodeEach;
      hide EncodeFields;
      hide HaveType;
      hide HaveTypes;
      match s
      case Unsigned(w) => WriteInt(v.n, w);
      case Signed(w) => WriteInt(v.n, w);
      case Bits64 => WriteInt(v.n, 8);
      case Bool => WriteInt(if v.on then 1 else 0, 1);
      case Text =>
        WriteInt(|EncodeUtf8(v.s)|, 4);
        WriteBytes(EncodeUtf8(v.s));
      case Optional(e) => WriteOptional(v, e);
      case Sequence(e) => WriteSequence(v.items, e);
      case Record(fs) => WriteFields(v.items, fs);
      case Enum(cs) => WriteEnum(v.index, v.items, cs[v.index].fields);
    }

    method WriteEnum(index: nat, vs: seq<Value>, fs: seq<Field>)
      requires HaveTypes(vs, fs)
      modifies this
      ensures buf == old(buf) + (BigEndian(index + 1, 4) + EncodeFields(vs, fs))
      decreases fs, 1
    {
      hide Spells;
      hide Encode;
      hide EncodeFields;
      hide HasType;
      hide HaveTypes;
      hide BigEndian;
      WriteInt(index + 1, 4);
      WriteFields(vs, fs);
    }

    method WriteOptional(v: Value, e: Schema)
      requires v.Nothing? || (v.Just? && HasType(v.v, e))
      modifies this
      ensures buf == old(buf) + if v.Nothing? then BigEndian(0, 1) else BigEndian(1, 1) + Encode(v.v, e)
      decreases e, 2
    {
      hide Spells;
      hide Encode;
      hide HasType;
      if v.Nothing? {
        WriteInt(0, 1);
      } else {
        WriteInt(1, 1);
        Write(v.v, e);
      }
    }

    method WriteSequence(vs: seq<Value>, e: Schema)
      requires |vs| < MAX_COUNT && HaveType(vs, e)
      modifies this
      ensures buf == old(buf) + (BigEndian(|vs|, 4) + EncodeEach(vs, e))
      decreases e, 2
    {
      hide Spells;
      hide Encode;
      hide HasType;
      WriteInt(|vs|, 4);
      ghost var start := buf;
      assert vs[0..] == vs;
      for i := 0 to |vs|
        invariant HaveType(vs[i..], e) && buf + EncodeEach(vs[i..], e) == start + EncodeEach(vs, e)
      {
        assert vs[i..][1..] == vs[i + 1..];
        Write(vs[i], e);
      }
      assert buf + [] == buf;
    }

    method WriteFields(vs: seq<Value>, fs: seq<Field>)
      requires HaveTypes(vs, fs)
      modifies this
      ensures buf == old(buf) + EncodeFields(vs, fs)
      decreases fs, 0
    {
      hide Spells;
      hide Encode;
      hide HasType;
      if fs != [] {
        Write(vs[0], fs[0].schema);
        WriteFields(vs[1..], fs[1..]);
      }
    }
  }

  /** The `(data, offset)` cursor every `read` advances, on a host of either byte order. */
  class Reader {
    const littleEndian: bool
    const data: seq<byte>
    var offset: nat

    ghost predicate Valid()
      reads this
    {
      offset <= |data|
    }

    constructor (data: seq<byte>, littleEndian: bool)
      ensures this.data == data && this.littleEndian == littleEndian && offset == 0 && Valid()
    {
      this.data, this.littleEndian := data, littleEndian;
      offset := 0;
    }

    /** `r` is what the bytes from `start` on read as, and on success the cursor is just past them. */
    ghost predicate Advanced<T>(r: Lifted<T>, start: nat, spec: Parsed<T>)
      reads this
    {
      Valid() &&
      match spec
      case Ok(v, n) => r == Lift(v) && offset == start + n
      case Fail(e) => r == Throw(e)
    }

    method ReadInteger(w: nat) returns (r: Lifted<int>)
      requires Valid()
      modifies this
      ensures Advanced(r, old(offset), ReadInt(data[old(offset)..], w))
    {
      if |data| < offset + w {
        return Throw(BufferOverflow);
      }
      var range := data[offset..offset + w];
      assert data[offset..][..w] == range;
      if w == 1 {
        r := Lift(range[0]);
      } else {
        var value := FromMemory(range, littleEndian);
        r := Lift(BigEndianOf(value, w, littleEndian));
        ReadBytes(range, littleEndian);
      }
      offset := offset + w;
    }

    method ReadSignedInteger(w: nat) returns (r: Lifted<int>)
      requires Valid()
      modifies this
      ensures Advanced(r, old(offset), ReadSigned(data[old(offset)..], w))
    {
      r := ReadInteger(w);
      if r.Lift? {
        r := Lift(AsSigned(r.value, w));
      }
    }

    method ReadString() returns (r: Lifted<string>)
      requires Valid()
      modifies this
      ensures Advanced(r, old(offset), ReadText(data[old(offset)..]))
    {
      var len := ReadSignedInteger(4);
      if len.Throw? {
        return Throw(len.error);
      }
      if len.value < 0 {
        return Throw(Trap);
      }
      if |data| < offset + len.value {
        return Throw(BufferOverflow);
      }
      assert data[old(offset)..][4..4 + len.value] == data[offset..offset + len.value];
      var text := DecodeUtf8(data[offset..offset + len.value]);
      offset := offset + len.value;
      r := if text.None? then Throw(Trap) else Lift(text.value);
    }

    method Read(s: Schema) returns (r: Lifted<Value>)
      requires Valid()
      modifies this
      ensures Advanced(r, old(offset), Decode(data[old(offset)..], s))
      decreases s, 1
    {
      match s
      case Unsigned(w) =>
        var n := ReadInteger(w);
        r := if n.Throw? then Throw(n.error) else Lift(Number(n.value));
      case Signed(w) =>
        var n := ReadSignedInteger(w);
        r := if n.Throw? then Throw(n.error) else Lift(Number(n.value));
      case Bits64 =>
        var n := ReadInteger(8);
        r := if n.Throw? then Throw(n.error) else Lift(Number(n.value));
      case Bool =>
        var n := ReadInteger(1);
        r := if n.Throw? then Throw(n.error) else Lift(Flag(n.value != 0));
      case Text =>
        var t := ReadString();
        r := if t.Throw? then Throw(t.error) else Lift(Chars(t.value));
      case Optional(e) => r := ReadOptional(e);
      case Sequence(e) => r := ReadSequence(e);
      case Record(fs) =>
        var vs := ReadFields(fs);
        r := if vs.Throw? then Throw(vs.error) else Lift(List(vs.value));
      case Enum(cs) => r := ReadEnum(cs);
    }

    method ReadOptional(e: Schema) returns (r: Lifted<Value>)
      requires Valid()
      modifies this
      ensures Advanced(r, old(offset), Decode(data[old(offset)..], Optional(e)))
      decreases e, 2
    {
      var tag := ReadSignedInteger(1);
      if tag.Throw? {
        return Throw(tag.error);
      }
      if tag.value == 0 {
        return Lift(Nothing);
      }
      if tag.value != 1 {
        return Throw(UnexpectedOptionalTag);
      }
      assert data[old(offset)..][1..] == data[offset..];
      var v := Read(e);
      r := if v.Throw? then Throw(v.error) else Lift(Just(v.value));
    }

    method ReadSequence(e: Schema) returns (r: Lifted<Value>)
      requires Valid()
      modifies this
      ensures Advanced(r, old(offset), Decode(data[old(offset)..], Sequence(e)))
      decreases e, 3
    {
      var len := ReadSignedInteger(4);
      if len.Throw? {
        return Throw(len.error);
      }
      if len.value < 0 {
        return Throw(Trap);
      }
      assert data[old(offset)..][4..] == data[offset..];
      var vs := ReadEach(e, len.value);
      r := if vs.Throw? then Throw(vs.error) else Lift(List(vs.value));
    }

    method ReadEach(e: Schema, count: nat) returns (r: Lifted<seq<Value>>)
      requires Valid()
      modifies this
      ensures Advanced(r, old(offset), DecodeEach(data[old(offset)..], e, count))
      decreases e, 2
    {
      hide Decode;
      hide DecodeEach;
      hide Resumed;
      var vs: seq<Value> := [];
      ghost var start := offset;
      ghost var whole := DecodeEach(data[start..], e, count);
      ResumedEnds(vs, 0, whole);
      for i := 0 to count
        invariant Valid() && start <= offset
        invariant whole == Resumed(vs, offset - start, DecodeEach(data[offset..], e, count - i))
      {
        ghost var before := offset;
        DecodeEachResume(vs, before - start, data[before..], e, count - i);
        var v := Read(e);
        if v.Throw? {
          return Throw(v.error);
        }
        DropTwice(data, before, offset);
        vs := vs + [v.value];
      }
      ResumedEnds(vs, offset - start, whole);
      r := Lift(vs);
    }

    method ReadEnum(cs: seq<Case>) returns (r: Lifted<Value>)
      requires Valid()
      modifies this
      ensures Advanced(r, old(offset), Decode(data[old(offset)..], Enum(cs)))
      decreases cs, 2
    {
      var tag := ReadSignedInteger(4);
      if tag.Throw? {
        return Throw(tag.error);
      }
      if !(1 <= tag.value <= |cs|) {
        return Throw(UnexpectedEnumCase);
      }
      assert data[old(offset)..][4..] == data[offset..];
      var vs := ReadFields(cs[tag.value - 1].fields);
      r := if vs.Throw? then Throw(vs.error) else Lift(Variant(tag.value - 1, vs.value));
    }

    method ReadFields(fs: seq<Field>) returns (r: Lifted<seq<Value>>)
      requires Valid()
      modifies this
      ensures Advanced(r, old(offset), DecodeFields(data[old(offset)..], fs))
      decreases fs, 0
    {
      hide Decode;
      if fs == [] {
        return Lift([]);
      }
      var v := Read(fs[0].schema);
      if v.Throw? {
        return Throw(v.error);
      }
      assert data[old(offset)..][offset - old(offset)..] == data[offset..];
      var vs := ReadFields(fs[1..]);
      r := if vs.Throw? then Throw(vs.error) else Lift([v.value] + vs.value);
    }
  }

  /** `FfiConverterRustBuffer.lower`. */
  method LowerToBuffer(v: Value, s: Schema, littleEndian: bool) returns (b: seq<byte>)
    requires HasType(v, s)
    ensures b == Lower(v, s)
  {
    var w := new Writer(littleEndian);
    w.Write(v, s);
    b := w.buf;
  }

  /** `FfiConverterRustBuffer.lift`. */
  method LiftFromBuffer(b: seq<byte>, s: Schema, littleEndian: bool) returns (r: Lifted<Value>)
    ensures r == LiftBuffer(b, s)
  {
    var reader := new Reader(b, littleEndian);
    assert b[0..] == b;
    r := reader.Read(s);
    if r.Lift? && reader.offset < |b| {
      r := Throw(IncompleteData);
    }
  }
}
