/** src/buffer.h: `BinaryStream`, a byte buffer with a cursor. Integers are written
    and read little-endian, byte arrays and strings are copied raw, and a varint
    format is decoded. Reads fail with `std::out_of_range` when the buffer is too
    short; the model returns `Err(OutOfRange)` and leaves the cursor alone. */
module Buffer {
  import opened Ints
  import opened Wrappers
  import opened CStrings

  datatype BufferError = OutOfRange

  /** The integral types of the `push_*`/`get_*` members. */
  datatype IntKind = I8 | U8 | I16 | U16 | I32 | U32 | I64 | U64

  /** `sizeof(T)`. */
  function Size(k: IntKind): nat {
    match k
    case I8 | U8 => 1
    case I16 | U16 => 2
    case I32 | U32 => 4
    case I64 | U64 => 8
  }

  predicate IsSigned(k: IntKind) {
    k == I8 || k == I16 || k == I32 || k == I64
  }

  function Pow256(n: nat): (p: nat)
    ensures p > 0
  {
    if n == 0 then 1 else 256 * Pow256(n - 1)
  }

  function Pow2(n: nat): (p: nat)
    ensures p > 0
  {
    if n == 0 then 1 else 2 * Pow2(n - 1)
  }

  /** The number of bit patterns of the type. */
  function Modulus(k: IntKind): (m: int)
    ensures m > 0
  {
    Pow256(Size(k))
  }

  /** `v` is a value of the type. */
  predicate Holds(k: IntKind, v: int) {
    if IsSigned(k) then -Modulus(k) <= 2 * v < Modulus(k) else 0 <= v < Modulus(k)
  }

  /** The two's-complement bit pattern of `v`, read as an unsigned number. */
  function Unsigned(k: IntKind, v: int): (u: nat)
    requires Holds(k, v)
    ensures u < Modulus(k) && (u == v || u == v + Modulus(k))
  {
    if v < 0 then v + Modulus(k) else v
  }

  /** The value of the type whose bit pattern is `u`. */
  function Reinterpret(k: IntKind, u: nat): (v: int)
    requires u < Modulus(k)
    ensures Holds(k, v) && (v == u || v == u - Modulus(k))
  {
    if IsSigned(k) && 2 * u >= Modulus(k) then u - Modulus(k) else u
  }

  /** The low `n` bytes of `u`, least significant first. */
  function LeBytes(u: nat, n: nat): (bs: seq<uint8>)
    ensures |bs| == n
  {
    if n == 0 then [] else [u % 256] + LeBytes(u / 256, n - 1)
  }

  /** The number a little-endian byte sequence denotes. */
  function FromLe(bs: seq<uint8>): nat {
    if bs == [] then 0 else bs[0] + 256 * FromLe(bs[1..])
  }

  /** `n` bytes denote less than 256^n. */
  lemma {:induction false} FromLeBound(bs: seq<uint8>)
    ensures FromLe(bs) < Pow256(|bs|)
  {
    if bs != [] {
      FromLeBound(bs[1..]);
    }
  }

  /** Extending a little-endian sequence adds its top byte at the next weight. */
  lemma {:induction false} FromLeAppend(bs: seq<uint8>, b: uint8)
    ensures FromLe(bs + [b]) == FromLe(bs) + b * Pow256(|bs|)
  {
    if bs == [] {
      assert [b][1..] == [];
    } else {
      assert (bs + [b])[1..] == bs[1..] + [b];
      FromLeAppend(bs[1..], b);
    }
  }

  /** Decoding the `n` low bytes of `u` gives `u` modulo 256^n. */
  lemma {:induction false} FromLeOfLeBytes(u: nat, n: nat)
    ensures FromLe(LeBytes(u, n)) == u % Pow256(n)
  {
    if n == 0 {
      DivModUnique(u, 1, u, 0);
    } else {
      var p := Pow256(n - 1);
      FromLeOfLeBytes(u / 256, n - 1);
      assert LeBytes(u, n)[1..] == LeBytes(u / 256, n - 1);
      var q := (u / 256) / p;
      var r := (u / 256) % p;
      assert u / 256 == q * p + r;
      assert u == 256 * (u / 256) + u % 256;
      assert u == q * (256 * p) + (256 * r + u % 256);
      DivModUnique(u, 256 * p, q, 256 * r + u % 256);
    }
  }

  /** Encoding what a byte sequence denotes gives the sequence back. */
  lemma {:induction false} LeBytesOfFromLe(bs: seq<uint8>)
    ensures LeBytes(FromLe(bs), |bs|) == bs
  {
    if bs != [] {
      var rest := FromLe(bs[1..]);
      DivModUnique(FromLe(bs), 256, rest, bs[0]);
      LeBytesOfFromLe(bs[1..]);
    }
  }

  /** The bytes `push_arithmetic` writes for `v`. */
  function Encode(k: IntKind, v: int): (bs: seq<uint8>)
    requires Holds(k, v)
    ensures |bs| == Size(k)
  {
    LeBytes(Unsigned(k, v), Size(k))
  }

  /** The value `get_arithmetic` reads from the bytes `bs`. */
  function Decode(k: IntKind, bs: seq<uint8>): (v: int)
    requires |bs| == Size(k)
    ensures Holds(k, v)
  {
    FromLeBound(bs);
    Reinterpret(k, FromLe(bs))
  }

  /** Reading back the bytes written for a value of a type gives the value. */
  lemma {:induction false} LeRoundTrip(k: IntKind, v: int)
    requires Holds(k, v)
    ensures Decode(k, Encode(k, v)) == v
  {
    var u := Unsigned(k, v);
    FromLeOfLeBytes(u, Size(k));
    DivModUnique(u, Modulus(k), 0, u);
  }

  /** Writing back the value read from bytes gives the same bytes. */
  lemma {:induction false} DecodeRoundTrip(k: IntKind, bs: seq<uint8>)
    requires |bs| == Size(k)
    ensures Encode(k, Decode(k, bs)) == bs
  {
    FromLeBound(bs);
    LeBytesOfFromLe(bs);
  }

  /** `resize(required)` when it grows: the old bytes, then zero bytes. */
  function Grow(buf: seq<uint8>, required: nat): (r: seq<uint8>)
    ensures |r| == if required > |buf| then required else |buf|
    ensures r[..|buf|] == buf
    ensures forall j :: |buf| <= j < |r| ==> r[j] == 0
  {
    if required > |buf| then buf + seq(required - |buf|, _ => 0) else buf
  }

  /** The buffer after `data` is copied in at `at`, grown first when too short:
      `data` sits at `at`, every other byte is as before or a zero of the growth. */
  function Write(buf: seq<uint8>, at: nat, data: seq<uint8>): (r: seq<uint8>)
    ensures |r| == if at + |data| > |buf| then at + |data| else |buf|
    ensures r[at..at + |data|] == data
    ensures forall j :: 0 <= j < |r| && !(at <= j < at + |data|) ==> r[j] == (if j < |buf| then buf[j] else 0)
  {
    var grown := Grow(buf, at + |data|);
    assert forall j :: 0 <= j < |buf| ==> grown[j] == grown[..|buf|][j];
    grown[..at] + data + grown[at + |data|..]
  }

  lemma {:induction false} LeBytesStep(written: seq<uint8>, rest: nat, n: nat, bytes: seq<uint8>)
    requires n > 0 && written + LeBytes(rest, n) == bytes
    ensures (written + [rest % 256]) + LeBytes(rest / 256, n - 1) == bytes
  {
    assert LeBytes(rest, n) == [rest % 256] + LeBytes(rest / 256, n - 1);
  }

  lemma {:induction false} WriteIsSplice(buf: seq<uint8>, at: nat, data: seq<uint8>, grown: seq<uint8>)
    requires grown == Grow(buf, at + |data|)
    ensures Write(buf, at, data) == grown[..at] + data + grown[at + |data|..]
  {
  }

  /** One more byte read little-endian adds its value at its weight. */
  lemma {:induction false} ReadStep(buf: seq<uint8>, at: nat, i: nat)
    requires at + i < |buf|
    ensures FromLe(buf[at..at + i + 1]) == FromLe(buf[at..at + i]) + buf[at + i] * Pow256(i)
  {
    var s := buf[at..at + i];
    assert |s| == i;
    FromLeAppend(s, buf[at + i]);
    assert buf[at..at + i + 1] == s + [buf[at + i]];
  }

  /** One continuation byte of a varint, accumulated with 64-bit wrap-around. */
  lemma {:induction false} DecodeStep(b: seq<uint8>, start: nat, pos: nat, data: int, shift: nat)
    requires start < pos < |b| && shift == 6 + 7 * (pos - start - 1)
    requires data == Wrap64(b[start] % 64 + Chunks(b[start + 1..pos], 6))
    ensures Wrap64(data + (b[pos] % 128) * Pow2(shift)) == Wrap64(b[start] % 64 + Chunks(b[start + 1..pos + 1], 6))
  {
    ChunksAppend(b[start + 1..pos], b[pos], 6);
    assert b[start + 1..pos + 1] == b[start + 1..pos] + [b[pos]];
    WrapAdd(b[start] % 64 + Chunks(b[start + 1..pos], 6), (b[pos] % 128) * Pow2(shift));
  }

  /** The decoder's accumulated bits, signed by the first byte, are the varint's value. */
  lemma {:induction false} DecodeDone(b: seq<uint8>, start: nat, pos: nat, data: int64)
    requires start < pos <= |b|
    requires data == Wrap64(b[start] % 64 + Chunks(b[start + 1..pos], 6))
    ensures VarintValue(b[start..pos]) == if (b[start] / 64) % 2 == 1 then Wrap64(-(data as int)) else data
  {
    assert b[start..pos][1..] == b[start + 1..pos];
  }

  /** Overwriting the byte after a spliced prefix extends the splice. */
  lemma {:induction false} SpliceStep(grown: seq<uint8>, at: nat, written: seq<uint8>, b: uint8)
    requires at + |written| < |grown|
    ensures (grown[..at] + written + grown[at + |written|..])[at + |written| := b]
            == grown[..at] + (written + [b]) + grown[at + |written| + 1..]
  {
  }

  lemma {:induction false} WriteIntoEmpty(data: seq<uint8>)
    ensures Write([], 0, data) == data && data[0..|data|] == data
  {
  }

  /** A write leaves a range before or after it alone. */
  lemma {:induction false} WriteKeeps(buf: seq<uint8>, at: nat, data: seq<uint8>, lo: nat, hi: nat)
    requires lo <= hi <= |buf| && (hi <= at || at + |data| <= lo)
    ensures Write(buf, at, data)[lo..hi] == buf[lo..hi]
  {
    var w := Write(buf, at, data);
    assert forall j :: lo <= j < hi ==> w[j] == buf[j];
  }

  /** Two adjacent writes are one write of the concatenation. */
  lemma {:induction false} WriteAppend(buf: seq<uint8>, at: nat, x: seq<uint8>, y: seq<uint8>)
    ensures Write(Write(buf, at, x), at + |x|, y) == Write(buf, at, x + y)
  {
    var lhs := Write(Write(buf, at, x), at + |x|, y);
    var rhs := Write(buf, at, x + y);
    assert |lhs| == |rhs|;
    forall j | 0 <= j < |lhs|
      ensures lhs[j] == rhs[j]
    {
      if at <= j < at + |x| {
        assert rhs[at..at + |x + y|][j - at] == (x + y)[j - at];
        assert Write(buf, at, x)[at..at + |x|][j - at] == x[j - at];
      } else if at + |x| <= j < at + |x| + |y| {
        assert rhs[at..at + |x + y|][j - at] == (x + y)[j - at];
        assert lhs[at + |x|..at + |x| + |y|][j - at - |x|] == y[j - at - |x|];
      }
    }
  }

  /** The unsigned varint continuation groups after the first byte: seven data
      bits each, at shifts `shift`, `shift + 7`, ... */
  function Chunks(bs: seq<uint8>, shift: nat): nat {
    if bs == [] then 0 else (bs[0] % 128) * Pow2(shift) + Chunks(bs[1..], shift + 7)
  }

  lemma {:induction false} ChunksAppend(bs: seq<uint8>, b: uint8, shift: nat)
    ensures Chunks(bs + [b], shift) == Chunks(bs, shift) + (b % 128) * Pow2(shift + 7 * |bs|)
  {
    if bs == [] {
      assert [b][1..] == [];
    } else {
      assert (bs + [b])[1..] == bs[1..] + [b];
      ChunksAppend(bs[1..], b, shift + 7);
    }
  }

  /** The length of the varint starting at `at`: up to and including the first
      byte without the continuation bit 0x80, or 0 when the buffer ends first. */
  function VarintLength(buf: seq<uint8>, at: nat): (n: nat)
    decreases |buf| - at
    ensures n > 0 ==> (&& at + n <= |buf| && buf[at + n - 1] < 128
                        && forall j :: at <= j < at + n - 1 ==> buf[j] >= 128)
    ensures n == 0 ==> forall j :: at <= j < |buf| ==> buf[j] >= 128
  {
    if at >= |buf| then 0
    else if buf[at] < 128 then 1
    else
      var m := VarintLength(buf, at + 1);
      if m == 0 then 0 else m + 1
  }

  /** The value a varint denotes: six data bits in the first byte, whose 0x40 bit
      is the sign, then seven bits per byte. The 64-bit result keeps the low 64
      bits, and negating the minimum wraps. */
  function VarintValue(bs: seq<uint8>): int64
    requires |bs| >= 1
  {
    var data := Wrap64(bs[0] % 64 + Chunks(bs[1..], 6));
    if (bs[0] / 64) % 2 == 1 then Wrap64(-(data as int)) else data
  }

  /** Seven-bit groups of `m`, least significant first, with the continuation
      bit on every group but the last. */
  function Groups7(m: nat): (bs: seq<uint8>)
    ensures |bs| >= 1 && bs[|bs| - 1] < 128
    ensures forall j :: 0 <= j < |bs| - 1 ==> bs[j] >= 128
  {
    if m < 128 then [m] else [m % 128 + 128] + Groups7(m / 128)
  }

  /** The encoder the decoder is the inverse of: sign and six bits in the first
      byte, then the remaining magnitude in seven-bit groups. */
  function VarintEncode(v: int64): (bs: seq<uint8>)
    ensures |bs| >= 1 && bs[|bs| - 1] < 128
    ensures forall j :: 0 <= j < |bs| - 1 ==> bs[j] >= 128
  {
    var mag := if v < 0 then -(v as int) else v as int;
    var first := mag % 64 + (if v < 0 then 64 else 0) + (if mag >= 64 then 128 else 0);
    [first] + (if mag >= 64 then Groups7(mag / 64) else [])
  }

  lemma {:induction false} ChunksOfGroups7(m: nat, shift: nat)
    ensures Chunks(Groups7(m), shift) == m * Pow2(shift)
  {
    if m >= 128 {
      ChunksOfGroups7(m / 128, shift + 7);
      PowSeven(shift);
      ChunksOfGroups7Step(m, shift);
      RecombineGroup(m, Pow2(shift), Chunks(Groups7(m / 128), shift + 7));
    }
  }

  lemma {:induction false} ChunksOfGroups7Step(m: nat, shift: nat)
    requires m >= 128
    ensures Chunks(Groups7(m), shift) == (m % 128) * Pow2(shift) + Chunks(Groups7(m / 128), shift + 7)
  {
    var bs := Groups7(m);
    assert bs[1..] == Groups7(m / 128);
    assert bs[0] % 128 == m % 128;
  }

  /** `m` is its low seven bits plus 128 times the rest, scaled by `p`. */
  lemma {:induction false} RecombineGroup(m: nat, p: int, rest: int)
    requires rest == (m / 128) * (128 * p)
    ensures (m % 128) * p + rest == m * p
  {
    var lo := m % 128;
    var hi := m / 128;
    assert m == lo + 128 * hi;
    assert hi * (128 * p) == 128 * hi * p;
    assert lo * p + 128 * hi * p == (lo + 128 * hi) * p;
  }

  lemma {:induction false} PowSeven(shift: nat)
    ensures Pow2(shift + 7) == 128 * Pow2(shift)
  {
    assert Pow2(shift + 7) == 2 * Pow2(shift + 6);
    assert Pow2(shift + 6) == 2 * Pow2(shift + 5);
    assert Pow2(shift + 5) == 2 * Pow2(shift + 4);
    assert Pow2(shift + 4) == 2 * Pow2(shift + 3);
    assert Pow2(shift + 3) == 2 * Pow2(shift + 2);
    assert Pow2(shift + 2) == 2 * Pow2(shift + 1);
  }

  lemma {:induction false} Groups7Length(m: nat, k: nat)
    requires k >= 1 && m < Pow2(7 * k)
    ensures |Groups7(m)| <= k
  {
    if m >= 128 {
      PowSeven(7 * (k - 1));
      Groups7Length(m / 128, k - 1);
    }
  }

  /** The magnitude of `v` (as an unbounded integer). */
  function Magnitude(v: int64): nat {
    if v < 0 then -(v as int) else v as int
  }

  /** Every 64-bit value encodes in at most ten bytes, and decoding its bytes gives it back. */
  lemma {:induction false} VarintRoundTrip(v: int64)
    ensures |VarintEncode(v)| <= 10
    ensures VarintValue(VarintEncode(v)) == v
  {
    var bs := VarintEncode(v);
    var mag := Magnitude(v);
    EncodedMagnitude(v);
    EncodedFirstByte(v);
    if v < 0 {
      NegateWrapped(v);
    }
  }

  /** Negating the wrapped magnitude of a negative value wraps back to the value. */
  lemma {:induction false} NegateWrapped(v: int64)
    requires v < 0
    ensures Wrap64(-(Wrap64(-(v as int)) as int)) == v
  {
    var data := Wrap64(-(v as int));
    NegatedMultiple(-(v as int) - data, TWO_64);
    Wrap64Congruent(-(data as int), v);
  }

  /** The data bits of an encoding add up to the magnitude, in at most ten bytes. */
  lemma {:induction false} EncodedMagnitude(v: int64)
    ensures |VarintEncode(v)| <= 10
    ensures VarintEncode(v)[0] % 64 + Chunks(VarintEncode(v)[1..], 6) == Magnitude(v)
  {
    EncodedLowBits(v);
    EncodedHighBits(v);
  }

  lemma {:induction false} EncodedLowBits(v: int64)
    ensures VarintEncode(v)[0] % 64 == Magnitude(v) % 64
  {
    var first := VarintEncode(v)[0];
    var mag := Magnitude(v);
    DivModUnique(first, 64, first / 64, mag % 64);
  }

  lemma {:induction false} EncodedHighBits(v: int64)
    ensures |VarintEncode(v)| <= 10
    ensures Chunks(VarintEncode(v)[1..], 6) == (Magnitude(v) / 64) * 64
  {
    var bs := VarintEncode(v);
    var mag := Magnitude(v);
    if mag >= 64 {
      assert bs[1..] == Groups7(mag / 64);
      ChunksOfGroups7(mag / 64, 6);
      assert Pow2(6) == 64;
      EncodedLength(mag / 64);
    } else {
      assert bs[1..] == [];
    }
  }

  lemma {:induction false} EncodedLength(hi: nat)
    requires hi <= TWO_63 / 64
    ensures |Groups7(hi)| <= 9
  {
    Pow2Of63();
    Groups7Length(hi, 9);
  }

  /** The first byte's 0x40 bit is the sign. */
  lemma {:induction false} EncodedFirstByte(v: int64)
    ensures (VarintEncode(v)[0] / 64) % 2 == (if v < 0 then 1 else 0)
  {
  }

  lemma {:induction false} Pow2Of63()
    ensures Pow2(63) == TWO_63
  {
    assert Pow2(8) == 0x100;
    assert Pow2(7) == 0x80;
    Pow2Mul(8, 7);
    Pow2Mul(8, 8);
    Pow2Mul(16, 15);
    Pow2Mul(16, 16);
    Pow2Mul(32, 31);
  }

  lemma {:induction false} Pow2Mul(a: nat, b: nat)
    ensures Pow2(a + b) == Pow2(a) * Pow2(b)
  {
    if a > 0 {
      Pow2Mul(a - 1, b);
    }
  }

  /** A varint written at `at` is found to have exactly its own length. */
  lemma {:induction false} VarintLengthOfWritten(buf: seq<uint8>, at: nat, bs: seq<uint8>)
    requires at + |bs| <= |buf| && buf[at..at + |bs|] == bs
    requires |bs| >= 1 && bs[|bs| - 1] < 128 && forall j :: 0 <= j < |bs| - 1 ==> bs[j] >= 128
    ensures VarintLength(buf, at) == |bs|
  {
    assert buf[at + |bs| - 1] == bs[|bs| - 1];
    assert forall j :: at <= j < at + |bs| ==> buf[j] == bs[j - at];
  }

  /** `BinaryStream`: the vector `buffer` and the cursor `offset`, which may point
      past the end (`seek` and `skip` do not check it). */
  class BinaryStream {
    var buffer: seq<uint8>
    var offset: nat

    constructor ()
      ensures buffer == [] && offset == 0
    {
      buffer := [];
      offset := 0;
    }

    /** The constructors from a byte vector or byte array: a copy, cursor at 0. */
    constructor FromBytes(data: seq<uint8>)
      ensures buffer == data && offset == 0
    {
      buffer := data;
      offset := 0;
    }

    /** `ensure_capacity`: grows to exactly `required` when shorter, else no change. */
    method EnsureCapacity(required: nat)
      modifies this
      ensures buffer == Grow(old(buffer), required) && offset == old(offset)
    {
      if required > |buffer| {
        buffer := buffer + seq(required - |buffer|, _ => 0);
      }
    }

    /** `check_available`: succeeds exactly when `required` bytes follow the cursor. */
    method CheckAvailable(required: nat) returns (r: Result<(), BufferError>)
      ensures r.Ok? <==> offset + required <= |buffer|
      ensures r.Err? ==> r.error == OutOfRange
    {
      if offset + required > |buffer| {
        return Err(OutOfRange);
      }
      return Ok(());
    }

    /** `push_le` for a type of `size` bytes whose value has the bit pattern
        `bits`: byte `i` is bits 8i..8i+7, and the cursor moves past the bytes. */
    method PushLe(size: nat, bits: nat)
      modifies this
      ensures buffer == Write(old(buffer), old(offset), LeBytes(bits, size))
      ensures offset == old(offset) + size
    {
      EnsureCapacity(offset + size);
      var at := offset;
      var buf := buffer;
      ghost var grown := buf;
      var rest := bits;
      ghost var bytes := LeBytes(rest, size);
      ghost var written: seq<uint8> := [];
      var i := 0;
      while i < size
        invariant at + size <= |grown|
        invariant 0 <= i <= size && |buf| == |grown| && |written| == i
        invariant buf == grown[..at] + written + grown[at + i..]
        invariant written + LeBytes(rest, size - i) == bytes
      {
        var b: uint8 := rest % 256;
        LeBytesStep(written, rest, size - i, bytes);
        SpliceStep(grown, at, written, b);
        buf := buf[at + i := b];
        written := written + [b];
        rest := rest / 256;
        i := i + 1;
      }
      WriteIsSplice(old(buffer), at, written, grown);
      buffer := buf;
      offset := at + size;
    }

    /** `get_le` for a type of `size` bytes: the bit pattern the next bytes form
        little-endian. The shifted bytes occupy disjoint bits, so the source's
        `|=` is an addition. */
    method GetLe(size: nat) returns (r: Result<nat, BufferError>)
      modifies this
      ensures buffer == old(buffer)
      ensures old(offset) + size <= |buffer| ==>
                r == Ok(FromLe(buffer[old(offset)..old(offset) + size])) && offset == old(offset) + size
      ensures old(offset) + size > |buffer| ==> r == Err(OutOfRange) && offset == old(offset)
    {
      var available := CheckAvailable(size);
      if available.Err? {
        return Err(available.error);
      }
      var at := offset;
      var buf := buffer;
      var value := 0;
      var i := 0;
      while i < size
        invariant buffer == buf && offset == at
        invariant i <= size && value == FromLe(buf[at..at + i])
      {
        ReadStep(buf, at, i);
        value := value + buf[at + i] * Pow256(i);
        i := i + 1;
      }
      offset := at + size;
      return Ok(value);
    }

    /** `push_arithmetic` for the integral types, and so every `push_i8` ...
        `push_u64`: the value's two's-complement bit pattern, little-endian. */
    method PushArithmetic(k: IntKind, value: int)
      requires Holds(k, value)
      modifies this
      ensures buffer == Write(old(buffer), old(offset), Encode(k, value))
      ensures offset == old(offset) + Size(k)
    {
      PushLe(Size(k), Unsigned(k, value));
    }

    /** `get_arithmetic` for the integral types, and so every `get_i8` ... `get_u64`:
        the value of the type whose bit pattern the next bytes form. */
    method GetArithmetic(k: IntKind) returns (r: Result<int, BufferError>)
      modifies this
      ensures buffer == old(buffer)
      ensures old(offset) + Size(k) <= |buffer| ==>
                && r == Ok(Decode(k, buffer[old(offset)..old(offset) + Size(k)]))
                && offset == old(offset) + Size(k)
      ensures old(offset) + Size(k) > |buffer| ==> r == Err(OutOfRange) && offset == old(offset)
    {
      var bits := GetLe(Size(k));
      if bits.Err? {
        return Err(bits.error);
      }
      FromLeBound(buffer[offset - Size(k)..offset]);
      return Ok(Reinterpret(k, bits.value));
    }

    /** `push_byte_array` (pointer and length, and the fixed-size overloads). */
    method PushByteArray(data: seq<uint8>)
      modifies this
      ensures buffer == Write(old(buffer), old(offset), data)
      ensures offset == old(offset) + |data|
    {
      EnsureCapacity(offset + |data|);
      buffer := buffer[..offset] + data + buffer[offset + |data|..];
      offset := offset + |data|;
    }

    /** `get_byte_array`: the next `n` bytes, when there are that many. */
    method GetByteArray(n: nat) returns (r: Result<seq<uint8>, BufferError>)
      modifies this
      ensures buffer == old(buffer)
      ensures old(offset) + n <= |buffer| ==>
                r == Ok(buffer[old(offset)..old(offset) + n]) && offset == old(offset) + n
      ensures old(offset) + n > |buffer| ==> r == Err(OutOfRange) && offset == old(offset)
    {
      var available := CheckAvailable(n);
      if available.Err? {
        return Err(available.error);
      }
      r := Ok(buffer[offset..offset + n]);
      offset := offset + n;
    }

    /** `push_length_prefixed_string`: the length cast to 32 bits, then the bytes. */
    method PushLengthPrefixedString(str: seq<uint8>)
      modifies this
      ensures buffer == Write(Write(old(buffer), old(offset), LeBytes(|str| % TWO_32, 4)), old(offset) + 4, str)
      ensures offset == old(offset) + 4 + |str|
    {
      U32Pattern(|str| % TWO_32);
      PushArithmetic(U32, |str| % TWO_32);
      PushByteArray(str);
    }

    /** `get_length_prefixed_string`. When the length is readable but the bytes are
        not all there, the error comes after the cursor has passed the length. */
    method GetLengthPrefixedString() returns (r: Result<seq<uint8>, BufferError>)
      modifies this
      ensures buffer == old(buffer)
      ensures old(offset) + 4 > |buffer| ==> r == Err(OutOfRange) && offset == old(offset)
      ensures old(offset) + 4 <= |buffer| ==>
                var len := FromLe(buffer[old(offset)..old(offset) + 4]);
                if old(offset) + 4 + len <= |buffer|
                then r == Ok(buffer[old(offset) + 4..old(offset) + 4 + len]) && offset == old(offset) + 4 + len
                else r == Err(OutOfRange) && offset == old(offset) + 4
    {
      assert Modulus(U32) == TWO_32;
      var len := GetArithmetic(U32);
      if len.Err? {
        return Err(len.error);
      }
      var available := CheckAvailable(len.value);
      if available.Err? {
        return Err(available.error);
      }
      r := Ok(buffer[offset..offset + len.value]);
      offset := offset + len.value;
    }

    /** `push_string`: the raw bytes, no length. */
    method PushString(str: seq<uint8>)
      modifies this
      ensures buffer == Write(old(buffer), old(offset), str)
      ensures offset == old(offset) + |str|
    {
      PushByteArray(str);
    }

    /** `get_string(len)`: the bytes before the first NUL among the next `len`,
        the cursor always moving by `len`. */
    method GetString(len: nat) returns (r: Result<seq<uint8>, BufferError>)
      modifies this
      ensures buffer == old(buffer)
      ensures old(offset) + len <= |buffer| ==>
                r == Ok(UpToNul(buffer[old(offset)..old(offset) + len], 0)) && offset == old(offset) + len
      ensures old(offset) + len > |buffer| ==> r == Err(OutOfRange) && offset == old(offset)
    {
      var available := CheckAvailable(len);
      if available.Err? {
        return Err(available.error);
      }
      var window := buffer[offset..offset + len];
      var actualLen := StrNLen(window, 0);
      r := Ok(window[..actualLen]);
      offset := offset + len;
    }

    /** `varint_decode`. The source checks no bounds and steps the cursor through an
        `int*` aliasing it, so the model requires a terminated varint of at most ten
        bytes (a longer one shifts past 63 bits) at a cursor below 2^31 - 10. */
    method VarintDecode() returns (v: int64)
      requires 1 <= VarintLength(buffer, offset) <= 10 && offset + 10 < 0x8000_0000
      modifies this
      ensures buffer == old(buffer)
      ensures offset == old(offset) + VarintLength(buffer, old(offset))
      ensures v == VarintValue(buffer[old(offset)..offset])
    {
      var b := buffer;
      var pos := offset;
      ghost var start := pos;
      ghost var n := VarintLength(b, pos);
      var byte := b[pos];
      pos := pos + 1;
      var sign := (byte / 64) % 2 == 1;
      var data: int64 := byte % 64;
      var shift := 6;
      while byte >= 128
        invariant buffer == b && start < pos <= start + n
        invariant shift == 6 + 7 * (pos - start - 1)
        invariant byte == b[pos - 1]
        invariant data == Wrap64(b[start] % 64 + Chunks(b[start + 1..pos], 6))
        decreases start + n - pos
      {
        byte := b[pos];
        DecodeStep(b, start, pos, data, shift);
        data := Wrap64(data + (byte % 128) * Pow2(shift));
        pos := pos + 1;
        shift := shift + 7;
      }
      DecodeDone(b, start, pos, data);
      offset := pos;
      v := if sign then Wrap64(-(data as int)) else data;
    }

    /** `seek`. */
    method Seek(newOffset: nat)
      modifies this
      ensures buffer == old(buffer) && offset == newOffset
    {
      offset := newOffset;
    }

    /** `skip`. */
    method Skip(skipOffset: nat)
      modifies this
      ensures buffer == old(buffer) && offset == old(offset) + skipOffset
    {
      offset := offset + skipOffset;
    }

    /** `clear`. */
    method Clear()
      modifies this
      ensures buffer == [] && offset == 0
    {
      buffer := [];
      offset := 0;
    }
  }

  /** An integer pushed at any position of any buffer reads back unchanged once the
      cursor is moved back there. */
  method IntegerRoundTrip(data: seq<uint8>, at: nat, k: IntKind, v: int) returns (r: Result<int, BufferError>)
    requires Holds(k, v)
    ensures r == Ok(v)
  {
    var s := new BinaryStream.FromBytes(data);
    s.Seek(at);
    s.PushArithmetic(k, v);
    s.Seek(at);
    r := s.GetArithmetic(k);
    LeRoundTrip(k, v);
  }

  /** A string shorter than 2^32 bytes pushed with its length prefix reads back
      unchanged, and the cursor ends just after it. */
  method StringRoundTrip(data: seq<uint8>, at: nat, str: seq<uint8>) returns (r: Result<seq<uint8>, BufferError>, next: nat)
    requires |str| < TWO_32
    ensures r == Ok(str) && next == at + 4 + |str|
  {
    var s := new BinaryStream.FromBytes(data);
    s.Seek(at);
    s.PushLengthPrefixedString(str);
    PrefixedLayout(data, at, str, s.buffer);
    s.Seek(at);
    r := s.GetLengthPrefixedString();
    next := s.offset;
  }

  /** What a length-prefixed write leaves at `at`: the length, read little-endian,
      then the bytes. */
  lemma {:induction false} PrefixedLayout(data: seq<uint8>, at: nat, str: seq<uint8>, buf: seq<uint8>)
    requires |str| < TWO_32
    requires buf == Write(Write(data, at, LeBytes(|str| % TWO_32, 4)), at + 4, str)
    ensures at + 4 + |str| <= |buf| && buf[at + 4..at + 4 + |str|] == str
    ensures FromLe(buf[at..at + 4]) == |str|
  {
    var prefix := LeBytes(|str| % TWO_32, 4);
    var first := Write(data, at, prefix);
    assert at + 4 <= |first| && first[at..at + 4] == prefix;
    WrittenAfter(first, at, prefix, str, buf);
    assert FromLe(prefix) == |str| by {
      LengthPrefixValue(|str|);
    }
  }

  /** A write just after `prefix` leaves `prefix` in place. */
  lemma {:induction false} WrittenAfter(first: seq<uint8>, at: nat, prefix: seq<uint8>, str: seq<uint8>, buf: seq<uint8>)
    requires at + |prefix| <= |first| && first[at..at + |prefix|] == prefix
    requires buf == Write(first, at + |prefix|, str)
    ensures buf[at..at + |prefix|] == prefix
    ensures at + |prefix| + |str| <= |buf| && buf[at + |prefix|..at + |prefix| + |str|] == str
  {
    WriteKeeps(first, at + |prefix|, str, at, at + |prefix|);
  }

  /** The bit pattern of a `uint32` is the number itself, in four bytes. */
  lemma {:induction false} U32Pattern(n: int)
    requires 0 <= n < TWO_32
    ensures Holds(U32, n) && Encode(U32, n) == LeBytes(n, 4)
  {
    assert Modulus(U32) == TWO_32;
  }

  /** Four little-endian bytes carry any length below 2^32. */
  lemma {:induction false} LengthPrefixValue(n: nat)
    requires n < TWO_32
    ensures FromLe(LeBytes(n % TWO_32, 4)) == n
  {
    DivModUnique(n, TWO_32, 0, n);
    FromLeOfLeBytes(n, 4);
    assert Pow256(4) == TWO_32;
  }

  /** A value's varint encoding, pushed into an empty stream, decodes to the value. */
  method VarintStreamRoundTrip(v: int64) returns (r: int64)
    ensures r == v
  {
    var s := new BinaryStream();
    var bs := VarintEncode(v);
    s.PushByteArray(bs);
    s.Seek(0);
    WriteIntoEmpty(bs);
    VarintRoundTrip(v);
    VarintLengthOfWritten(bs, 0, bs);
    r := s.VarintDecode();
  }
}
