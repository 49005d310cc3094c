/** Little-endian base-128 numbers (section 7.6 of DWARF Version 4), as the exception tables store
    them.  Memory is a sequence of bytes and a pointer is an index into it; a read that would leave
    memory, or that the original cannot do without overflowing an int, yields None. */
module Leb128 {
  import opened Common

  /** A decoded number, how many payload bits it had, and where the next datum starts. */
  datatype Raw = Raw(bits: nat, payload: nat, next: nat)
  datatype Number = Number(value: int, next: nat)

  const MAX_BYTES := 5      // digit << bit is an int: a sixth digit cannot be shifted that far at all,
  const LAST_DIGIT := 8     // and the fifth one only if it is less than this

  lemma Pow2Step(n: nat)
    ensures Pow2(n + 7) == 128 * Pow2(n)
  {
    assert Pow2(n + 7) == 2 * Pow2(n + 6) && Pow2(n + 6) == 2 * Pow2(n + 5) && Pow2(n + 5) == 2 * Pow2(n + 4);
    assert Pow2(n + 4) == 2 * Pow2(n + 3) && Pow2(n + 3) == 2 * Pow2(n + 2) && Pow2(n + 2) == 2 * Pow2(n + 1);
  }

  /** The number at `p`, if its last byte, the first without the high bit, is among the next `limit` and is small
      enough if it is the last of these: seven bits a byte, lowest first. */
  function RawAt(mem: seq<Byte>, p: nat, limit: nat): (r: Option<Raw>)
    ensures r.Some? ==> p < r.value.next <= p + limit && r.value.next <= |mem| && r.value.bits == 7 * (r.value.next - p)
    decreases limit, p
  {
    if limit == 0 || p >= |mem| then None
    else if mem[p] < 128 then
      if limit == 1 && mem[p] >= LAST_DIGIT then None else Some(Raw(7, mem[p], p + 1))
    else
      match RawAt(mem, p + 1, limit - 1)
      case None => None
      case Some(x) => Some(Raw(7 + x.bits, mem[p] % 128 + 128 * x.payload, x.next))
  }

  /** `read_leb128` */
  method ReadLeb128(mem: seq<Byte>, p: nat) returns (r: Option<Raw>)
    ensures r == RawAt(mem, p, MAX_BYTES)
  {
    var uleb: nat, bit: nat, data := 0, 0, p;
    var limit: nat := MAX_BYTES;
    while true
      invariant limit == MAX_BYTES - (data - p) && bit == 7 * (data - p)
      invariant RawAt(mem, p, MAX_BYTES) == Prepend(uleb, bit, RawAt(mem, data, limit))
      decreases limit
    {
      if data - p == MAX_BYTES || data >= |mem| {
        return None;
      }
      var digit := mem[data] % 128;
      PrependDigit(uleb, bit, mem, data, limit);
      if limit == 1 && digit >= LAST_DIGIT {
        return None;
      }
      uleb := AddDigit(uleb, digit, bit);
      bit := bit + 7;
      data, limit := data + 1, limit - 1;
      if mem[data - 1] == digit {
        return Some(Raw(bit, uleb, data));
      }
    }
  }

  /** `x << bit` */
  function Shifted(x: nat, bit: nat): nat {
    if bit == 0 then x else 2 * Shifted(x, bit - 1)
  }

  lemma {:induction false} ShiftedDigit(d: nat, q: nat, bit: nat)
    ensures Shifted(d + 128 * q, bit) == Shifted(d, bit) + Shifted(q, bit + 7)
  {
    if bit == 0 {
      assert Shifted(q, 7) == 2 * Shifted(q, 6) == 4 * Shifted(q, 5) == 8 * Shifted(q, 4);
      assert Shifted(q, 4) == 2 * Shifted(q, 3) == 4 * Shifted(q, 2) == 8 * Shifted(q, 1);
    } else {
      ShiftedDigit(d, q, bit - 1);
    }
  }

  /** `uleb += digit << bit` */
  function AddDigit(uleb: nat, digit: nat, bit: nat): nat {
    uleb + Shifted(digit, bit)
  }

  /** `rest` with `bit` more payload bits, worth `uleb`, in front. */
  function Prepend(uleb: nat, bit: nat, rest: Option<Raw>): Option<Raw> {
    match rest
    case None => None
    case Some(x) => Some(Raw(bit + x.bits, uleb + Shifted(x.payload, bit), x.next))
  }

  lemma PrependDigit(uleb: nat, bit: nat, mem: seq<Byte>, data: nat, limit: nat)
    requires limit > 0 && data < |mem|
    ensures var more := AddDigit(uleb, mem[data] % 128, bit);
            Prepend(uleb, bit, RawAt(mem, data, limit)) ==
            if mem[data] >= 128 then Prepend(more, bit + 7, RawAt(mem, data + 1, limit - 1))
            else if limit == 1 && mem[data] >= LAST_DIGIT then None
            else Some(Raw(bit + 7, more, data + 1))
  {
    var rest := RawAt(mem, data + 1, limit - 1);
    if mem[data] >= 128 && rest.Some? {
      ShiftedDigit(mem[data] % 128, rest.value.payload, bit);
    }
  }

  /** `read_uleb128` */
  method ReadUleb128(mem: seq<Byte>, p: nat) returns (r: Option<Number>)
    ensures r == UlebAt(mem, p)
  {
    var raw := ReadLeb128(mem, p);
    match raw
    case None => r := None;
    case Some(x) => r := Some(Number(x.payload, x.next));
  }

  function UlebAt(mem: seq<Byte>, p: nat): Option<Number> {
    match RawAt(mem, p, MAX_BYTES)
    case None => None
    case Some(x) => Some(Number(x.payload, x.next))
  }

  /** `read_sleb128`: when the last payload bit is set, all higher bits are filled with ones. */
  method ReadSleb128(mem: seq<Byte>, p: nat) returns (r: Option<Number>)
    ensures r == SlebAt(mem, p)
  {
    var raw := ReadLeb128(mem, p);
    match raw
    case None => r := None;
    case Some(x) =>
      var value: int := x.payload;
      if x.payload / Pow2(x.bits - 1) == 1 {
        value := value - Pow2(x.bits);
      }
      r := Some(Number(value, x.next));
  }

  function SlebAt(mem: seq<Byte>, p: nat): Option<Number> {
    match RawAt(mem, p, MAX_BYTES)
    case None => None
    case Some(x) => Some(Number(SignExtended(x.payload, x.bits), x.next))
  }

  /** `payload` read as a two's complement number of `bits` bits. */
  function SignExtended(payload: nat, bits: nat): int
    requires bits > 0
  {
    if payload / Pow2(bits - 1) == 1 then payload - Pow2(bits) else payload
  }

  // ----- The encoders of the standard, and that decoding undoes them

  function EncodeU(n: nat): (bs: seq<Byte>)
    ensures |bs| > 0
  {
    if n < 128 then [n] else [128 + n % 128] + EncodeU(n / 128)
  }

  /** Signed encoding: shift arithmetically until only copies of the sign remain. */
  function EncodeS(n: int): (bs: seq<Byte>)
    ensures |bs| > 0
    decreases if n < 0 then -n else n
  {
    if -64 <= n < 64 then [n % 128] else [128 + n % 128] + EncodeS(n / 128)
  }

  /** Memory holds the bytes `bs` at `p`. */
  predicate Stored(mem: seq<Byte>, p: nat, bs: seq<Byte>)
    decreases |bs|
  {
    bs == [] || (p < |mem| && mem[p] == bs[0] && Stored(mem, p + 1, bs[1..]))
  }

  lemma {:induction false} StoredParts(mem: seq<Byte>, p: nat, a: seq<Byte>, b: seq<Byte>)
    requires Stored(mem, p, a + b)
    ensures Stored(mem, p, a) && Stored(mem, p + |a|, b)
    decreases |a|
  {
    if a == [] {
      assert a + b == b;
    } else {
      assert (a + b)[1..] == a[1..] + b;
      StoredParts(mem, p + 1, a[1..], b);
    }
  }

  lemma StoredFirst(mem: seq<Byte>, p: nat, b: Byte, rest: seq<Byte>)
    requires Stored(mem, p, [b] + rest)
    ensures p < |mem| && mem[p] == b && Stored(mem, p + 1, rest)
  {
    assert ([b] + rest)[1..] == rest;
  }

  /** The bytes `bs` are few enough, and the last one small enough, to be read with this limit. */
  predicate Readable(bs: seq<Byte>, limit: nat) {
    |bs| < limit || (0 < |bs| == limit && bs[|bs| - 1] < LAST_DIGIT)
  }

  lemma {:induction false} RawOfEncodeU(mem: seq<Byte>, p: nat, n: nat, limit: nat)
    requires Stored(mem, p, EncodeU(n)) && Readable(EncodeU(n), limit)
    ensures RawAt(mem, p, limit) == Some(Raw(7 * |EncodeU(n)|, n, p + |EncodeU(n)|))
    decreases n
  {
    if n < 128 {
      assert EncodeU(n) == [n];
    } else {
      StoredFirst(mem, p, 128 + n % 128, EncodeU(n / 128));
      RawOfEncodeU(mem, p + 1, n / 128, limit - 1);
    }
  }

  /** The `length` bytes at `p` are read as `n` in two's complement. */
  ghost predicate DecodesAs(mem: seq<Byte>, p: nat, limit: nat, n: int, length: nat) {
    && length > 0 && -Pow2(7 * length - 1) <= n < Pow2(7 * length - 1)
    && RawAt(mem, p, limit) == Some(Raw(7 * length, if n < 0 then n + Pow2(7 * length) else n, p + length))
  }

  lemma {:induction false} RawOfEncodeS(mem: seq<Byte>, p: nat, n: int, limit: nat)
    requires Stored(mem, p, EncodeS(n)) && Readable(EncodeS(n), limit)
    ensures DecodesAs(mem, p, limit, n, |EncodeS(n)|)
    decreases if n < 0 then -n else n
  {
    if -64 <= n < 64 {
      assert EncodeS(n) == [n % 128];
      OneByteSigned(mem, p, limit, n);
    } else {
      var rest := EncodeS(n / 128);
      StoredFirst(mem, p, 128 + n % 128, rest);
      RawOfEncodeS(mem, p + 1, n / 128, limit - 1);
      OneMoreSigned(mem, p, limit, n, |rest|);
    }
  }

  lemma OneByteSigned(mem: seq<Byte>, p: nat, limit: nat, n: int)
    requires -64 <= n < 64 && p < |mem| && mem[p] == n % 128 && Readable([mem[p]], limit)
    ensures DecodesAs(mem, p, limit, n, 1)
  {
    Pow2OfSix();
  }

  lemma OneMoreSigned(mem: seq<Byte>, p: nat, limit: nat, n: int, length: nat)
    requires limit > 0 && p < |mem| && mem[p] == 128 + n % 128
    requires DecodesAs(mem, p + 1, limit - 1, n / 128, length)
    ensures DecodesAs(mem, p, limit, n, length + 1)
  {
    SevenBitsMore(n, 7 * length);
    OneMoreByte(mem, p, limit, n % 128, RawAt(mem, p + 1, limit - 1).value);
  }

  lemma OneMoreByte(mem: seq<Byte>, p: nat, limit: nat, digit: nat, x: Raw)
    requires digit < 128 && p < |mem| && mem[p] == 128 + digit && limit > 0
    requires RawAt(mem, p + 1, limit - 1) == Some(x)
    ensures RawAt(mem, p, limit) == Some(Raw(7 + x.bits, digit + 128 * x.payload, x.next))
  {
    assert mem[p] % 128 == digit;
  }

  lemma Pow2OfSix()
    ensures Pow2(6) == 64 && Pow2(7) == 128
  {
  }

  lemma SevenBitsMore(n: int, k: nat)
    requires k > 0 && -Pow2(k - 1) <= n / 128 < Pow2(k - 1)
    ensures -Pow2(k + 6) <= n < Pow2(k + 6)
    ensures n % 128 + 128 * (if n / 128 < 0 then n / 128 + Pow2(k) else n / 128) == if n < 0 then n + Pow2(k + 7) else n
  {
    Pow2Step(k);
    Pow2Step(k - 1);
    Widen(n, Pow2(k - 1));
  }

  lemma Widen(n: int, h: int)
    requires -h <= n / 128 < h
    ensures -(128 * h) <= n < 128 * h
  {
  }

  /** Decoding undoes encoding and consumes exactly the encoded bytes, wherever the number lies in
      memory. */
  lemma UlebRoundTrip(mem: seq<Byte>, p: nat, n: nat)
    requires n < 0x8000_0000 && Stored(mem, p, EncodeU(n))
    ensures UlebAt(mem, p) == Some(Number(n, p + |EncodeU(n)|))
  {
    FitsU(n);
    RawOfEncodeU(mem, p, n, MAX_BYTES);
  }

  lemma SlebRoundTrip(mem: seq<Byte>, p: nat, n: int)
    requires -0x800_0000 <= n < 0x8000_0000 && Stored(mem, p, EncodeS(n))
    ensures SlebAt(mem, p) == Some(Number(n, p + |EncodeS(n)|))
  {
    FitsS(n);
    RawOfEncodeS(mem, p, n, MAX_BYTES);
    SignBit(n, 7 * |EncodeS(n)|);
  }

  lemma SignBit(n: int, k: nat)
    requires k > 0 && -Pow2(k - 1) <= n < Pow2(k - 1)
    ensures SignExtended(if n < 0 then n + Pow2(k) else n, k) == n
  {
    var h := Pow2(k - 1);
    assert Pow2(k) == 2 * h;
    if n < 0 {
      assert (n + Pow2(k)) / h == 1 by {
        assert n + Pow2(k) == h + (n + h) && 0 <= n + h < h;
        DivBetween(n + h, h);
      }
    } else {
      DivSmall(n, h);
    }
  }

  lemma DivBetween(r: nat, h: nat)
    requires r < h
    ensures (h + r) / h == 1
  {
  }

  lemma DivSmall(r: nat, h: nat)
    requires r < h
    ensures r / h == 0
  {
  }

  /** The first number whose encoding is not readable with this limit. */
  function UpperBound(limit: nat): nat {
    if limit == 0 then 0 else if limit == 1 then LAST_DIGIT else 128 * UpperBound(limit - 1)
  }

  /** The least signed one whose encoding is: the sign bit of a last byte is beyond its limit. */
  function LowerBound(limit: nat): int {
    if limit <= 1 then 0 else if limit == 2 then -64 else 128 * LowerBound(limit - 1)
  }

  lemma BoundsOfFive()
    ensures UpperBound(MAX_BYTES) == 0x8000_0000 && LowerBound(MAX_BYTES) == -0x800_0000
  {
    assert UpperBound(1) == 8 && UpperBound(2) == 1024 && UpperBound(3) == 0x2_0000 && UpperBound(4) == 0x100_0000;
    assert LowerBound(2) == -64 && LowerBound(3) == -0x2000 && LowerBound(4) == -0x10_0000;
  }

  lemma {:induction false} UpperBoundIsLarge(limit: nat)
    requires limit >= 2
    ensures UpperBound(limit) >= 1024 && LowerBound(limit) <= -64
  {
    if limit == 2 {
      assert UpperBound(1) == 8;
    } else {
      UpperBoundIsLarge(limit - 1);
    }
  }

  /** Exactly the numbers below 2^31 can be read back. */
  lemma FitsU(n: nat)
    ensures Readable(EncodeU(n), MAX_BYTES) <==> n < 0x8000_0000
  {
    FitsUWithin(n, MAX_BYTES);
    BoundsOfFive();
  }

  lemma {:induction false} FitsUWithin(n: nat, limit: nat)
    requires limit > 0
    ensures Readable(EncodeU(n), limit) <==> n < UpperBound(limit)
    decreases n
  {
    if limit >= 2 {
      UpperBoundIsLarge(limit);
    }
    if n >= 128 {
      if limit >= 2 {
        FitsUWithin(n / 128, limit - 1);
      }
    } else {
      assert EncodeU(n) == [n];
    }
  }

  /** Exactly the signed numbers from -2^27 to 2^31 can: a fifth byte that is small enough is never negative. */
  lemma FitsS(n: int)
    ensures Readable(EncodeS(n), MAX_BYTES) <==> -0x800_0000 <= n < 0x8000_0000
  {
    FitsSWithin(n, MAX_BYTES);
    BoundsOfFive();
  }

  lemma {:induction false} FitsSWithin(n: int, limit: nat)
    requires limit > 0
    ensures Readable(EncodeS(n), limit) <==> LowerBound(limit) <= n < UpperBound(limit)
    decreases if n < 0 then -n else n
  {
    if limit >= 2 {
      UpperBoundIsLarge(limit);
    }
    if -64 <= n < 64 {
      assert EncodeS(n) == [n % 128];
    } else if limit >= 2 {
      FitsSWithin(n / 128, limit - 1);
    }
  }
}
