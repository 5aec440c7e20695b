/** Bytes, machine integers with saturation, bounds-checked slices and the two byte orders (core/src/bytes.rs). */
module Bytes {
  datatype Option<+T> = None | Some(value: T)

  datatype Result<+T, +E> = Success(value: T) | Failure(error: E) {
    predicate IsFailure() {
      Failure?
    }

    function PropagateFailure<U>(): Result<U, E>
      requires Failure?
    {
      Failure(error)
    }

    function Extract(): T
      requires Success?
    {
      value
    }
  }

  type Byte = b: nat | b < 0x100
  type U16 = x: nat | x < 0x1_0000
  type U32 = x: nat | x < 0x1_0000_0000
  type U64 = x: nat | x < 0x1_0000_0000_0000_0000
  type I32 = x: int | -0x8000_0000 <= x < 0x8000_0000

  const U64_MAX: U64 := 0xFFFF_FFFF_FFFF_FFFF

  /** A Rust byte slice: the language bounds its length by `isize::MAX` (64-bit `usize`). */
  type Buffer = s: seq<Byte> | |s| < 0x8000_0000_0000_0000

  function Min(a: int, b: int): int {
    if a <= b then a else b
  }

  // ── 64-bit arithmetic ──────────────────────────────────────────────────────

  /** The nearest u64 to a natural number. */
  function Clamp(x: nat): U64 {
    if x <= U64_MAX then x else U64_MAX
  }

  function SatAdd(a: U64, b: U64): U64 {
    Clamp(a + b)
  }

  function SatMul(a: U64, b: U64): (r: U64)
    ensures r > 0 <==> a > 0 && b > 0
  {
    ProductPositive(a, b);
    Clamp(a * b)
  }

  /** u64 division and remainder. */
  function Div(a: U64, b: U64): U64
    requires b > 0
  {
    QuotientAtMost(a, b);
    a / b
  }

  function Rem(a: U64, b: U64): (r: U64)
    requires b > 0
    ensures r < b
  {
    a % b
  }

  function SatSub(a: U64, b: U64): U64 {
    if b <= a then a - b else 0
  }

  /** `i32 as u64`: sign extension. */
  function AsU64(x: I32): U64 {
    if x >= 0 then x else x + 0x1_0000_0000_0000_0000
  }

  function AsI32(x: U32): I32 {
    if x < 0x8000_0000 then x else x - 0x1_0000_0000
  }

  /** Sign extension is reduction modulo 2^64, and reinterpretation modulo 2^32. */
  lemma CastsWrap(x: I32, u: U32)
    ensures AsU64(x) == (x + 0x1_0000_0000_0000_0000) % 0x1_0000_0000_0000_0000
    ensures (AsI32(u) + 0x1_0000_0000) % 0x1_0000_0000 == u
  {
  }

  /** Saturating a step at a time is the same as saturating the exact result once. */
  lemma ClampSteps(a: nat, b: U64)
    ensures SatAdd(Clamp(a), b) == Clamp(a + b)
    ensures b > 0 ==> SatMul(Clamp(a), b) == Clamp(a * b)
  {
    if b > 0 && a > U64_MAX {
      assert a * b >= a by { assert a * b == a + a * (b - 1); }
      assert U64_MAX * b >= U64_MAX;
    }
  }

  lemma MulBound(a: nat, b: nat, c: nat, d: nat)
    requires a <= c && b <= d
    ensures a * b <= c * d
  {
    assert a * b <= c * b <= c * d by {
      assert c * b == a * b + (c - a) * b;
      assert c * d == c * b + c * (d - b);
    }
  }

  /** Slot `i` of `n` slots of `size` ends within them. */
  lemma SlotEnd(i: nat, n: nat, size: nat)
    requires i < n
    ensures i * size + size <= n * size
  {
    MulBound(i + 1, size, n, size);
    assert (i + 1) * size == i * size + size;
  }

  lemma DivMod(i: nat, m: nat) returns (q: nat, r: nat)
    requires m > 0
    ensures q == i / m && r == i % m
    ensures i == q * m + r && r < m
  {
    q, r := i / m, i % m;
  }

  lemma QuotientAtMost(a: nat, b: nat)
    requires b > 0
    ensures a / b <= a
  {
    var q, r := DivMod(a, b);
    MulBound(q, 1, q, b);
  }

  lemma ProductPositive(a: nat, b: nat)
    ensures a * b > 0 <==> a > 0 && b > 0
  {
    if a > 0 && b > 0 {
      MulBound(1, 1, a, b);
    }
  }

  lemma QuotientsAgree(m: nat, q: nat, r: nat, q': nat, r': nat)
    requires q * m + r == q' * m + r' && r < m && r' < m
    ensures q == q' && r == r'
  {
    if q < q' {
      SlotEnd(q, q', m);
    } else if q' < q {
      SlotEnd(q', q, m);
    }
  }

  /** Quotient and remainder are the only way to write `i` as `q * m + r` with `r < m`. */
  lemma DivModUnique(i: nat, m: nat, q: nat, r: nat)
    requires r < m && i == q * m + r
    ensures i / m == q && i % m == r
  {
    var q', r' := DivMod(i, m);
    QuotientsAgree(m, q, r, q', r');
  }

  // ── slices ─────────────────────────────────────────────────────────────────

  /** `slice::get(lo..hi)`. */
  function Get(data: Buffer, lo: U64, hi: U64): Option<Buffer> {
    if lo <= hi <= |data| then Some(data[lo..hi]) else None
  }

  lemma SliceOfSlice<T>(s: seq<T>, lo: nat, hi: nat, a: nat, b: nat)
    requires lo <= hi <= |s| && a <= b <= hi - lo
    ensures s[lo..hi][a..b] == s[lo + a..lo + b]
  {
    var inner := s[lo..hi];
    forall i | 0 <= i < b - a
      ensures inner[a..b][i] == s[lo + a..lo + b][i]
    {
      assert inner[a + i] == s[lo + a + i];
    }
  }

  function Zeros(n: nat): (z: seq<Byte>)
    ensures |z| == n && forall i :: 0 <= i < n ==> z[i] == 0
  {
    seq(n, i => 0)
  }

  /** The first `n` values of a function. */
  function Tabulate<T>(f: nat -> T, n: nat): (s: seq<T>)
    ensures |s| == n
    ensures forall i | 0 <= i < n :: s[i] == f(i)
  {
    seq(n, i requires 0 <= i < n => f(i))
  }

  // ── byte orders ────────────────────────────────────────────────────────────

  datatype Endian = Little | Big

  function Pow256(w: nat): (p: nat)
    ensures p > 0
  {
    if w == 0 then 1 else 256 * Pow256(w - 1)
  }

  lemma Pow256Values()
    ensures Pow256(1) == 0x100 && Pow256(2) == 0x1_0000
    ensures Pow256(4) == 0x1_0000_0000 && Pow256(8) == 0x1_0000_0000_0000_0000
  {
  }

  /** The number a byte string stands for (`from_le_bytes` / `from_be_bytes`). */
  function Decode(e: Endian, s: seq<Byte>): (v: nat)
    ensures v < Pow256(|s|)
  {
    if s == [] then 0
    else match e
      case Little => s[0] + 256 * Decode(e, s[1..])
      case Big => 256 * Decode(e, s[..|s| - 1]) + s[|s| - 1]
  }

  /** The `w`-byte form of a number (`to_le_bytes` / `to_be_bytes`). */
  function Encode(e: Endian, w: nat, v: nat): (s: seq<Byte>)
    ensures |s| == w
    decreases w
  {
    if w == 0 then []
    else match e
      case Little => [v % 256] + Encode(e, w - 1, v / 256)
      case Big => Encode(e, w - 1, v / 256) + [v % 256]
  }

  lemma {:induction false} DecodeEncode(e: Endian, w: nat, v: nat)
    requires v < Pow256(w)
    ensures Decode(e, Encode(e, w, v)) == v
    decreases w
  {
    if w > 0 {
      DecodeEncode(e, w - 1, v / 256);
      var rest := Encode(e, w - 1, v / 256);
      match e
      case Little => assert ([v % 256] + rest)[1..] == rest;
      case Big => assert (rest + [v % 256])[..w - 1] == rest;
    }
  }

  lemma {:induction false} EncodeDecode(e: Endian, s: seq<Byte>)
    ensures Encode(e, |s|, Decode(e, s)) == s
    decreases |s|
  {
    hide Pow256, Decode, Encode;
    if s == [] {
      assert Encode(e, 0, Decode(e, s)) == [];
    } else {
      var first, rest := s[0], s[1..];
      var front, last := s[..|s| - 1], s[|s| - 1];
      DecodeUnfold(e, s);
      EncodeUnfold(e, |s|, Decode(e, s));
      match e {
        case Little =>
          EncodeDecode(e, rest);
          LowByte(first, Decode(e, rest));
          assert s == [first] + rest;
        case Big =>
          EncodeDecode(e, front);
          LowByte(last, Decode(e, front));
          assert s == front + [last];
      }
    }
  }

  lemma DecodeUnfold(e: Endian, s: seq<Byte>)
    requires s != []
    ensures e.Little? ==> Decode(e, s) == s[0] + 256 * Decode(e, s[1..])
    ensures e.Big? ==> Decode(e, s) == 256 * Decode(e, s[..|s| - 1]) + s[|s| - 1]
  {
  }

  lemma EncodeUnfold(e: Endian, w: nat, v: nat)
    requires w > 0
    ensures e.Little? ==> Encode(e, w, v) == [v % 256] + Encode(e, w - 1, v / 256)
    ensures e.Big? ==> Encode(e, w, v) == Encode(e, w - 1, v / 256) + [v % 256]
  {
  }

  lemma LowByte(b: Byte, high: nat)
    ensures (b + 256 * high) % 256 == b && (b + 256 * high) / 256 == high
    ensures (256 * high + b) % 256 == b && (256 * high + b) / 256 == high
  {
  }

  lemma {:induction false} DecodeZeros(e: Endian, w: nat)
    ensures Decode(e, Zeros(w)) == 0
    decreases w
  {
    if w > 0 {
      DecodeZeros(e, w - 1);
      assert Zeros(w)[1..] == Zeros(w - 1) && Zeros(w)[..w - 1] == Zeros(w - 1);
    }
  }

  /** The endian readers: the value of `w` bytes at `off`, or 0 when they are not all there. */
  function ReadUint(e: Endian, data: Buffer, off: nat, w: U64): (v: nat)
    requires w <= 8
    ensures v == if off + w <= |data| then Decode(e, data[off..off + w]) else 0
    ensures v < Pow256(w)
  {
    match Get(data, Clamp(off), Clamp(off + w))
    case Some(b) => Decode(e, b)
    case None => 0
  }

  function ReadU16(e: Endian, data: Buffer, off: nat): U16 {
    Pow256Values();
    ReadUint(e, data, off, 2)
  }

  function ReadU32(e: Endian, data: Buffer, off: nat): U32 {
    Pow256Values();
    ReadUint(e, data, off, 4)
  }

  function ReadI32(e: Endian, data: Buffer, off: nat): I32 {
    AsI32(ReadU32(e, data, off))
  }

  function ReadU64(e: Endian, data: Buffer, off: nat): U64 {
    Pow256Values();
    ReadUint(e, data, off, 8)
  }

  function ReadU8(data: Buffer, off: nat): Byte {
    if off < |data| then data[off] else 0
  }

  /** A reader looks only at its own bytes: dropping what precedes or follows them changes nothing. */
  lemma ReadInside(e: Endian, data: Buffer, lo: nat, hi: nat, off: nat, w: U64)
    requires lo <= hi <= |data| && lo + off + w <= hi && w <= 8
    ensures ReadUint(e, data[lo..hi], off, w) == ReadUint(e, data, lo + off, w)
  {
    SliceOfSlice(data, lo, hi, off, off + w);
  }

  /** A number stored at `off` is the number read from there. */
  lemma StoredUint(data: Buffer, e: Endian, off: nat, w: nat, v: nat)
    requires w <= 8 && off + w <= |data| && v < Pow256(w)
    requires data[off..off + w] == Encode(e, w, v)
    ensures ReadUint(e, data, off, w) == v
  {
    DecodeEncode(e, w, v);
  }
}
