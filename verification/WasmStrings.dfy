/** Strings in and out of WebAssembly linear memory. */
module WasmStrings {
  import opened Options
  import opened Unicode

  predicate IsAscii(u: CodeUnit) { u <= 0x7F }

  /** `TextEncoder.encode`: the UTF-8 of a JavaScript string. */
  function TextEncode(s: seq<CodeUnit>): seq<byte> {
    EncodeUtf8(Scalars(s))
  }

  // ---------- Encoding the pieces is encoding the whole ----------

  /** ASCII characters as the bytes they are. */
  function AsciiBytes(s: seq<CodeUnit>): (b: seq<byte>)
    requires forall i :: 0 <= i < |s| ==> IsAscii(s[i])
    ensures |b| == |s| && forall i :: 0 <= i < |s| ==> b[i] == s[i]
  {
    seq(|s|, (i: nat) requires i < |s| && IsAscii(s[i]) => s[i] as byte)
  }

  lemma AsciiFirst(s: seq<CodeUnit>)
    requires s != [] && IsAscii(s[0])
    ensures TextEncode(s) == [s[0]] + TextEncode(s[1..])
  {
  }

  lemma {:induction false} AsciiPrefix(s: seq<CodeUnit>, k: nat)
    requires k <= |s| && forall i :: 0 <= i < k ==> IsAscii(s[i])
    ensures TextEncode(s) == AsciiBytes(s[..k]) + TextEncode(s[k..])
  {
    hide TextEncode;
    if k == 0 {
      assert s[0..] == s;
    } else {
      AsciiPrefix(s, k - 1);
      assert s[k - 1..][0] == s[k - 1] && s[k - 1..][1..] == s[k..];
      AsciiFirst(s[k - 1..]);
      assert AsciiBytes(s[..k]) == AsciiBytes(s[..k - 1]) + [s[k - 1]];
    }
  }

  lemma EncodeNothing(s: seq<CodeUnit>)
    requires s == []
    ensures TextEncode(s) == []
  {
  }

  /** Three bytes for each code unit always suffice. */
  lemma {:induction false} ThreeBytesSuffice(s: seq<CodeUnit>)
    ensures |s| <= |TextEncode(s)| <= 3 * |s|
  {
    if s != [] {
      ThreeBytesSuffice(s[FirstWidth(s)..]);
      assert Scalars(s)[1..] == Scalars(s[FirstWidth(s)..]);
    }
  }

  /** `TextDecoder.decode` in fatal mode, keeping a byte order mark; `None` is the thrown TypeError. */
  function TextDecode(b: seq<byte>): Option<seq<CodeUnit>> {
    match DecodeUtf8(b)
    case None => None
    case Some(s) => Some(EncodeUtf16(s))
  }

  /** What Rust is handed always decodes, and decodes to the original string iff that has no lone surrogate. */
  lemma DecodeOfEncode(s: seq<CodeUnit>)
    ensures TextDecode(TextEncode(s)).Some?
    ensures TextDecode(TextEncode(s)) == Some(s) <==> WellFormedUtf16(s)
  {
    DecodeEncodeUtf8(Scalars(s));
    ScalarsFaithful(s);
  }

  // ---------- Memory ----------

  /** The live allocations lie apart in a memory, each holding its bytes. */
  ghost predicate Holds(memory: seq<byte>, contents: map<nat, seq<byte>>) {
    (forall p <- contents :: p + |contents[p]| < |memory|) &&
    (forall p <- contents, q <- contents :: p < q ==> p + |contents[p]| <= q) &&
    (forall p <- contents, i :: 0 <= i < |contents[p]| ==> memory[p + i] == contents[p][i])
  }

  /** Writing inside one allocation changes what that one holds and no other. */
  lemma WritingInside(memory: seq<byte>, contents: map<nat, seq<byte>>, ptr: nat, at: nat, data: seq<byte>)
    requires Holds(memory, contents) && ptr in contents && at + |data| <= |contents[ptr]|
    ensures Holds(Overwrite(memory, ptr + at, data), contents[ptr := Overwrite(contents[ptr], at, data)])
  {
    var (m, c) := (Overwrite(memory, ptr + at, data), contents[ptr := Overwrite(contents[ptr], at, data)]);
    forall p, i | p in c && 0 <= i < |c[p]| ensures m[p + i] == c[p][i] {
      if p == ptr {
        OverwriteAt(memory, ptr + at, data, p + i);
        OverwriteAt(contents[ptr], at, data, i);
      } else {
        assert p + |contents[p]| <= ptr || ptr + |contents[ptr]| <= p;
        OverwriteAt(memory, ptr + at, data, p + i);
      }
    }
  }

  lemma InsideMemory(memory: seq<byte>, contents: map<nat, seq<byte>>, ptr: nat)
    requires Holds(memory, contents) && ptr in contents
    ensures ptr + |contents[ptr]| < |memory|
  {
  }

  lemma OverwriteAt(b: seq<byte>, at: nat, data: seq<byte>, i: nat)
    requires at + |data| <= |b| && i < |b|
    ensures Overwrite(b, at, data)[i] == if at <= i < at + |data| then data[i - at] else b[i]
  {
  }

  /** Linear memory and the Rust allocator behind `malloc` and `realloc`.
    * Growing the memory detaches every view of the old buffer: here, the module gets a new array. */
  class Memory {
    var bytes: array<byte>
    ghost var contents: map<nat, seq<byte>>  // each live allocation, by its start, and the bytes it holds

    ghost predicate Valid()
      reads this, bytes
    {
      Holds(bytes[..], contents)
    }

    constructor ()
      ensures Valid() && contents == map[] && fresh(bytes)
    {
      bytes := new byte[0];
      contents := map[];
    }

    method Malloc(size: nat) returns (ptr: nat)
      requires Valid()
      modifies this
      ensures Valid() && (fresh(bytes) || bytes == old(bytes))
      ensures ptr !in old(contents) && ptr in contents && |contents[ptr]| == size
      ensures contents == old(contents)[ptr := contents[ptr]]
    {
      ptr := bytes.Length;
      Grow(size + 1);
      contents := contents[ptr := bytes[ptr..ptr + size]];
    }

    /** Enlarges linear memory; the allocations keep their places. */
    method Grow(extra: nat)
      requires Valid()
      modifies this`bytes
      ensures Valid() && fresh(bytes) && bytes.Length == old(bytes.Length) + extra
    {
      var was := bytes;
      bytes := new byte[was.Length + extra];
      forall i | 0 <= i < was.Length {
        bytes[i] := was[i];
      }
    }

    /** Moves an allocation, keeping as many of its bytes as fit. */
    method Realloc(ptr: nat, oldSize: nat, newSize: nat) returns (moved: nat)
      requires Valid() && ptr in contents && |contents[ptr]| == oldSize
      modifies this, bytes
      ensures Valid() && (fresh(bytes) || bytes == old(bytes))
      ensures moved !in old(contents) - {ptr} && moved in contents && |contents[moved]| == newSize
      ensures contents == (old(contents) - {ptr})[moved := contents[moved]]
      ensures var n := Min(oldSize, newSize); contents[moved][..n] == old(contents)[ptr][..n]
    {
      hide Valid;
      moved := Malloc(newSize);
      var n := Min(oldSize, newSize);
      assert ptr in contents && contents[ptr] == old(contents)[ptr];
      var kept := Load(ptr, n);
      Store(bytes, moved, 0, kept);
      Free(ptr);
    }

    method Free(ptr: nat)
      requires Valid()
      modifies this`contents
      ensures Valid() && contents == old(contents) - {ptr}
    {
      contents := contents - {ptr};
    }

    method Load(ptr: nat, n: nat) returns (b: seq<byte>)
      requires Valid() && ptr in contents && n <= |contents[ptr]|
      ensures b == contents[ptr][..n]
    {
      b := bytes[ptr..ptr + n];
    }

    /** Writes through a view of the current memory, inside one live allocation. */
    method Store(view: array<byte>, ptr: nat, at: nat, data: seq<byte>)
      requires Valid() && view == bytes && ptr in contents && at + |data| <= |contents[ptr]|
      modifies view, this`contents
      ensures Valid() && contents == old(contents)[ptr := Overwrite(old(contents)[ptr], at, data)]
    {
      hide Holds;
      hide Overwrite;
      WritingInside(view[..], contents, ptr, at, data);
      InsideMemory(view[..], contents, ptr);
      SetBytes(view, ptr + at, data);
      contents := contents[ptr := Overwrite(contents[ptr], at, data)];
    }
  }

  /** `view.set(data, at)` */
  method SetBytes(view: array<byte>, at: nat, data: seq<byte>)
    requires at + |data| <= view.Length
    modifies view
    ensures view[..] == Overwrite(old(view[..]), at, data)
  {
    forall i | 0 <= i < |data| {
      view[at + i] := data[i];
    }
  }

  function Overwrite(b: seq<byte>, at: nat, data: seq<byte>): (r: seq<byte>)
    requires at + |data| <= |b|
    ensures |r| == |b|
  {
    b[..at] + data + b[at + |data|..]
  }

  /** `view.subarray(from, to)`, both ends brought inside the view. */
  function Subarray(b: seq<byte>, from: nat, to: nat): seq<byte>
    requires from <= to
  {
    b[Min(from, |b|)..Min(to, |b|)]
  }

  /** Of a range only what lies inside is read, in order. */
  lemma SubarrayIs(b: seq<byte>, from: nat, to: nat, i: nat)
    requires from <= to
    ensures var r := Subarray(b, from, to);
            |r| == (if to <= |b| then to - from else if from <= |b| then |b| - from else 0) &&
            (i < |r| ==> r[i] == b[from + i])
  {
  }

  function Min(a: nat, b: nat): nat { if a < b then a else b }

  // ---------- The bindings ----------

  const MAX_SAFARI_DECODE_BYTES := 2146435072

  lemma FirstThenRest(s: seq<CodeUnit>)
    requires s != []
    ensures TextEncode(s) == EncodeChar(FirstScalar(s)) + TextEncode(s[FirstWidth(s)..])
  {
  }

  class Bindings {
    const wasm: Memory
    var cached: array?<byte>      // the cached Uint8Array over linear memory
    var vectorLen: nat            // WASM_VECTOR_LEN
    var numBytesDecoded: nat

    constructor (wasm: Memory)
      ensures this.wasm == wasm && cached == null && numBytesDecoded == 0
    {
      this.wasm := wasm;
      cached := null;
      vectorLen, numBytesDecoded := 0, 0;
    }

    /** A view over a buffer that memory growth has detached reports length 0. */
    function ByteLength(view: array<byte>): nat
      reads wasm
    {
      if view == wasm.bytes then view.Length else 0
    }

    /** The current memory, never a detached view of an old one. */
    method GetUint8ArrayMemory() returns (view: array<byte>)
      modifies this`cached
      ensures view == wasm.bytes == cached
    {
      if cached == null || ByteLength(cached) == 0 {
        cached := wasm.bytes;
      }
      view := cached;
    }

    /** `TextEncoder.encodeInto` on the last `room` bytes of an allocation: whole characters, as long as they fit. */
    method EncodeInto(arg: seq<CodeUnit>, view: array<byte>, ptr: nat, start: nat, room: nat)
      returns (read: nat, written: nat, ghost done: seq<byte>)
      requires wasm.Valid() && view == wasm.bytes && ptr in wasm.contents && start + room == |wasm.contents[ptr]|
      modifies view, wasm`contents
      ensures wasm.Valid() && read <= |arg| && written == |done| <= room
      ensures TextEncode(arg) == done + TextEncode(arg[read..])
      ensures wasm.contents == old(wasm.contents)[ptr := Overwrite(old(wasm.contents)[ptr], start, done)]
      ensures read < |arg| ==> room < written + |EncodeChar(FirstScalar(arg[read..]))|
    {
      hide Memory.Valid;
      hide TextEncode;
      read, written, done := 0, 0, [];
      ghost var was := wasm.contents[ptr];
      assert arg[0..] == arg && done + TextEncode(arg) == TextEncode(arg);
      assert Overwrite(was, start, done) == was && wasm.contents == old(wasm.contents)[ptr := was];
      while read < |arg|
        invariant wasm.Valid() && read <= |arg| && written == |done| <= room
        invariant TextEncode(arg) == done + TextEncode(arg[read..])
        invariant wasm.contents == old(wasm.contents)[ptr := Overwrite(was, start, done)]
      {
        var rest := arg[read..];
        var next := EncodeChar(FirstScalar(rest));
        if room < written + |next| {
          return;
        }
        wasm.Store(view, ptr, start + written, next);
        OverwriteTwice(was, start, done, next);
        FirstThenRest(rest);
        assert rest[FirstWidth(rest)..] == arg[read + FirstWidth(rest)..];
        assert done + (next + TextEncode(arg[read + FirstWidth(rest)..])) ==
               done + next + TextEncode(arg[read + FirstWidth(rest)..]);
        read, written, done := read + FirstWidth(rest), written + |next|, done + next;
      }
    }

    /** The replacement installed where `encodeInto` is missing; `None` is the RangeError of `view.set`. */
    method EncodeIntoFallback(arg: seq<CodeUnit>, view: array<byte>, ptr: nat, start: nat, room: nat)
      returns (r: Option<(nat, nat)>)
      requires wasm.Valid() && view == wasm.bytes && ptr in wasm.contents && start + room == |wasm.contents[ptr]|
      modifies view, wasm`contents
      ensures wasm.Valid()
      ensures r == if room < |TextEncode(arg)| then None else Some((|arg|, |TextEncode(arg)|))
      ensures wasm.contents == if r.None? then old(wasm.contents)
                else old(wasm.contents)[ptr := Overwrite(old(wasm.contents)[ptr], start, TextEncode(arg))]
    {
      var buf := TextEncode(arg);
      if room < |buf| {
        return None;
      }
      wasm.Store(view, ptr, start, buf);
      r := Some((|arg|, |buf|));
    }

    /** Given room for the whole encoding, the native and the replacement `encodeInto` do the same. */
    method EncodeWhole(native: bool, arg: seq<CodeUnit>, view: array<byte>, ptr: nat, start: nat, room: nat)
      returns (written: nat)
      requires wasm.Valid() && view == wasm.bytes && ptr in wasm.contents && start + room == |wasm.contents[ptr]|
      requires |TextEncode(arg)| <= room
      modifies view, wasm`contents
      ensures wasm.Valid() && written == |TextEncode(arg)|
      ensures wasm.contents == old(wasm.contents)[ptr := Overwrite(old(wasm.contents)[ptr], start, TextEncode(arg))]
    {
      if native {
        var read;
        ghost var done;
        read, written, done := EncodeInto(arg, view, ptr, start, room);
        ghost var rest := arg[read..];
        if rest != [] {
          FirstThenRest(rest);
        }
        assert rest == [] && done + rest == done;
      } else {
        var r := EncodeIntoFallback(arg, view, ptr, start, room);
        written := r.value.1;
      }
    }

    /** The fast path: copies leading ASCII one byte a character, stopping at the first other one. */
    method CopyAscii(arg: seq<CodeUnit>, ptr: nat) returns (offset: nat)
      requires wasm.Valid() && ptr in wasm.contents && |wasm.contents[ptr]| == |arg|
      modifies this`cached, wasm.bytes, wasm`contents
      ensures wasm.Valid() && offset <= |arg| && forall i :: 0 <= i < offset ==> IsAscii(arg[i])
      ensures offset < |arg| ==> arg[offset] > 127
      ensures wasm.contents ==
              old(wasm.contents)[ptr := Overwrite(old(wasm.contents)[ptr], 0, AsciiBytes(arg[..offset]))]
    {
      hide Memory.Valid;
      var mem := GetUint8ArrayMemory();
      offset := 0;
      ghost var was := wasm.contents[ptr];
      assert Overwrite(was, 0, AsciiBytes(arg[..0])) == was;
      while offset < |arg| && IsAscii(arg[offset])
        invariant wasm.Valid() && offset <= |arg| && forall i :: 0 <= i < offset ==> IsAscii(arg[i])
        invariant wasm.contents == old(wasm.contents)[ptr := Overwrite(was, 0, AsciiBytes(arg[..offset]))]
      {
        wasm.Store(mem, ptr, offset, [arg[offset]]);
        OverwriteTwice(was, 0, AsciiBytes(arg[..offset]), [arg[offset]]);
        assert AsciiBytes(arg[..offset + 1]) == AsciiBytes(arg[..offset]) + [arg[offset]];
        offset := offset + 1;
      }
    }

    /** The slow path: makes room for three bytes a character, encodes what is left, and gives back the excess. */
    method EncodeTail(native: bool, rest: seq<CodeUnit>, at: nat, size: nat, done: nat) returns (ptr: nat, written: nat)
      requires wasm.Valid() && at in wasm.contents && |wasm.contents[at]| == size == done + |rest|
      modifies this`cached, wasm, wasm.bytes
      ensures wasm.Valid() && ptr !in old(wasm.contents) - {at} && written == |TextEncode(rest)|
      ensures wasm.contents == (old(wasm.contents) - {at})[ptr := old(wasm.contents)[at][..done] + TextEncode(rest)]
    {
      hide Overwrite;
      hide Memory.Valid;
      hide TextEncode;
      ThreeBytesSuffice(rest);
      var room := |rest| * 3;
      var wide := wasm.Realloc(at, size, done + room);
      ghost var kept := wasm.contents[wide];
      assert kept[..done] == old(wasm.contents)[at][..done] by {
        assert kept[..size][..done] == kept[..done];
        assert old(wasm.contents)[at][..size][..done] == old(wasm.contents)[at][..done];
      }
      var mem := GetUint8ArrayMemory();
      written := EncodeWhole(native, rest, mem, wide, done, room);
      ptr := wasm.Realloc(wide, done + room, done + written);
      OverwritePrefix(kept, done, TextEncode(rest));
      assert wasm.contents[ptr][..done + written] == wasm.contents[ptr];
    }

    /** Copies a JavaScript string into memory: afterwards a new allocation of `vectorLen` bytes holds exactly its
      * UTF-8, whichever way it was written, and every other allocation is as it was. */
    method PassStringToWasm(arg: seq<CodeUnit>, hasRealloc: bool, native: bool) returns (ptr: nat)
      requires wasm.Valid()
      modifies this, wasm, wasm.bytes
      ensures wasm.Valid() && ptr !in old(wasm.contents) && vectorLen == |TextEncode(arg)|
      ensures wasm.contents == old(wasm.contents)[ptr := TextEncode(arg)]
    {
      hide Memory.Valid;
      hide TextEncode;
      if !hasRealloc {
        var buf := TextEncode(arg);
        ptr := wasm.Malloc(|buf|);
        var mem := GetUint8ArrayMemory();
        wasm.Store(mem, ptr, 0, buf);
        assert wasm.contents[ptr] == buf;
        vectorLen := |buf|;
        return;
      }
      var len := |arg|;
      ptr := wasm.Malloc(len);
      var offset := CopyAscii(arg, ptr);
      AsciiPrefix(arg, offset);
      if offset != len {
        var rest := if offset != 0 then arg[offset..] else arg;
        assert rest == arg[offset..];
        assert wasm.contents - {ptr} == old(wasm.contents);
        assert wasm.contents[ptr][..offset] == AsciiBytes(arg[..offset]);
        var written;
        ptr, written := EncodeTail(native, rest, ptr, len, offset);
        offset := offset + written;
      } else {
        EncodeNothing(arg[offset..]);
        assert wasm.contents[ptr] == TextEncode(arg);
      }
      vectorLen := offset;
    }

    /** Reads `len` bytes back as a JavaScript string; `None` is the thrown TypeError of a fatal decoder. What lies past
      * the end of memory is left out, as `subarray` does.
      */
    method DecodeText(ptr: nat, len: nat) returns (r: Option<seq<CodeUnit>>)
      modifies this`cached, this`numBytesDecoded
      ensures r == TextDecode(Subarray(wasm.bytes[..], ptr, ptr + len))
      ensures numBytesDecoded < MAX_SAFARI_DECODE_BYTES || numBytesDecoded == len
    {
      numBytesDecoded := numBytesDecoded + len;
      if numBytesDecoded >= MAX_SAFARI_DECODE_BYTES {
        numBytesDecoded := len;
      }
      var mem := GetUint8ArrayMemory();
      r := TextDecode(Subarray(mem[..], ptr, ptr + len));
    }

    /** A string passed in and read back: the same string iff it holds no lone surrogate. */
    method RoundTrip(arg: seq<CodeUnit>, hasRealloc: bool, native: bool) returns (r: Option<seq<CodeUnit>>)
      requires wasm.Valid()
      modifies this, wasm, wasm.bytes
      ensures wasm.Valid() && r.Some?
      ensures r == Some(arg) <==> WellFormedUtf16(arg)
    {
      var ptr := PassStringToWasm(arg, hasRealloc, native);
      assert ptr in wasm.contents && ptr + vectorLen <= wasm.bytes.Length;
      assert Subarray(wasm.bytes[..], ptr, ptr + vectorLen) == wasm.contents[ptr];
      r := DecodeText(ptr, vectorLen);
      DecodeOfEncode(arg);
    }
  }

  lemma OverwritePrefix(b: seq<byte>, at: nat, data: seq<byte>)
    requires at + |data| <= |b|
    ensures Overwrite(b, at, data)[..at + |data|] == b[..at] + data
  {
  }

  lemma OverwriteTwice(b: seq<byte>, at: nat, first: seq<byte>, second: seq<byte>)
    requires at + |first| + |second| <= |b|
    ensures Overwrite(Overwrite(b, at, first), at + |first|, second) == Overwrite(b, at, first + second)
  {
  }
}
