/** The two decoders of unsigned Exp-Golomb codes, and the encoding of section 9.1 of ITU-T H.264. */
module ExpGolomb {
  import opened Sequences
  import opened Bytes

  type Bit = b: int | 0 <= b <= 1 witness 0

  const UINT32: nat := 0x1_0000_0000
  type Uint32 = v: int | 0 <= v < 0x1_0000_0000

  function Pow2(n: nat): (p: nat)
    ensures p >= 1
  {
    if n == 0 then 1 else 2 * Pow2(n - 1)
  }

  /** Bit `k` of a byte string, the most significant bit of a byte first. */
  function BitAt(data: Bytes, k: nat): Bit
    requires k < 8 * |data|
  {
    data[k / 8] / Pow2(7 - k % 8) % 2
  }

  ghost function Bits(data: Bytes): (bits: seq<Bit>)
    ensures |bits| == 8 * |data|
  {
    seq(8 * |data|, k requires 0 <= k < 8 * |data| => BitAt(data, k))
  }

  // The reference.

  datatype Decoded = Value(value: nat, next: nat) | EndOfData | TooManyZeros

  function LeadingZeros(bits: seq<Bit>, k: nat): (z: nat)
    ensures k <= |bits| ==> k + z <= |bits|
    ensures k + z < |bits| ==> bits[k + z] == 1
    decreases |bits| - k
  {
    if k < |bits| && bits[k] == 0 then 1 + LeadingZeros(bits, k + 1) else 0
  }

  /** The number that the `n` bits from `k` on spell. */
  function Number(bits: seq<Bit>, k: nat, n: nat): nat
    requires k + n <= |bits|
  {
    if n == 0 then 0 else 2 * Number(bits, k, n - 1) + bits[k + n - 1]
  }

  lemma NumberNext(bits: seq<Bit>, k: nat, n: nat)
    requires k + n < |bits|
    ensures Number(bits, k, n + 1) == 2 * Number(bits, k, n) + bits[k + n]
  {
  }

  /** What `z` zeros, a one and the given suffix of `z` bits stand for: 2^z - 1 plus the suffix, reduced to 32 bits. */
  function Meaning(z: nat, suffix: nat): nat {
    (Pow2(z) - 1 + suffix) % UINT32
  }

  function Ue(bits: seq<Bit>, k: nat): Decoded {
    var z := LeadingZeros(bits, k);
    if z > 32 then TooManyZeros
    else if k + 2 * z + 1 > |bits| then EndOfData
    else Value(Meaning(z, Number(bits, k + z + 1, z)), k + 2 * z + 1)
  }

  lemma UeIs(bits: seq<Bit>, k: nat, z: nat)
    requires LeadingZeros(bits, k) == z <= 32
    ensures Ue(bits, k) == if k + 2 * z + 1 > |bits| then EndOfData else Value(Meaning(z, Number(bits, k + z + 1, z)), k + 2 * z + 1)
  {
  }

  // The decoder of the keyframe detector. A shift by 32 gives 0, and the subtraction wraps.

  function Shifted(z: nat): nat
    requires z <= 32
  {
    Pow2(z) % UINT32
  }

  lemma {:induction false} Pow2Monotone(a: nat, b: nat)
    requires a <= b
    ensures Pow2(a) <= Pow2(b)
    decreases b
  {
    if a < b {
      Pow2Monotone(a, b - 1);
    }
  }

  lemma Pow2Of32()
    ensures Pow2(32) == UINT32
  {
    assert Pow2(8) == 256;
    assert Pow2(16) == 65536;
    assert Pow2(24) == 0x100_0000;
  }

  lemma ShiftedIs(z: nat)
    requires z <= 32
    ensures Shifted(z) == if z == 32 then 0 else Pow2(z)
  {
    Pow2Of32();
    Pow2Monotone(z, 32);
    if z < 32 {
      Pow2Monotone(z + 1, 32);
    }
  }

  lemma {:induction false} NumberBound(bits: seq<Bit>, k: nat, n: nat)
    requires k + n <= |bits|
    ensures Number(bits, k, n) < Pow2(n)
    decreases n
  {
    if n > 0 {
      NumberBound(bits, k, n - 1);
    }
  }

  method GetBit(data: Bytes, bitOffset: nat) returns (b: Bit)
    requires bitOffset < 8 * |data|
    ensures b == Bits(data)[bitOffset]
  {
    b := data[bitOffset / 8] / Pow2(7 - bitOffset % 8) % 2;
  }

  method DecodeExpGolomb(data: Bytes, start: nat) returns (r: Decoded)
    ensures r == Ue(Bits(data), start)
  {
    ghost var bits := Bits(data);
    var leadingZeros, outcome := CountLeadingZeros(data, start);
    if outcome != Counted {
      return if outcome == NoData then EndOfData else TooManyZeros;
    }
    UeIs(bits, start, leadingZeros);
    var offset := start + leadingZeros + 1;
    var info := ReadSuffix(data, offset, leadingZeros);
    if info.None? {
      return EndOfData;
    }
    NumberBound(bits, offset, leadingZeros);
    WrapIsMod(leadingZeros, Number(bits, offset, leadingZeros));
    return Value(if info.value == 0 then UINT32 - 1 else info.value - 1, offset + leadingZeros);
  }

  datatype Count = Counted | NoData | TooMany

  /** What a count of the zeros from `start` on has found. */
  ghost predicate CountedZeros(bits: seq<Bit>, start: nat, leadingZeros: nat, outcome: Count) {
    var z := LeadingZeros(bits, start);
    match outcome
    case Counted => leadingZeros == z <= 32 && start + z < |bits|
    case NoData => z <= 32 && start + z >= |bits|
    case TooMany => z > 32
  }

  /** The `n` bits from `start` on are zeros. */
  ghost predicate ZerosSoFar(bits: seq<Bit>, start: nat, n: nat) {
    (n > 0 ==> start + n <= |bits|) && forall i :: start <= i < start + n ==> bits[i] == 0
  }

  lemma {:induction false} ZerosCount(bits: seq<Bit>, start: nat, n: nat)
    requires ZerosSoFar(bits, start, n)
    ensures LeadingZeros(bits, start) == n + LeadingZeros(bits, start + n)
    decreases n
  {
    if n > 0 {
      ZerosCount(bits, start + 1, n - 1);
    }
  }

  /** The end of the data, a one, or a zero too many. */
  lemma ZerosEnd(bits: seq<Bit>, start: nat, n: nat, outcome: Count)
    requires ZerosSoFar(bits, start, n)
    requires match outcome
             case NoData => start + n >= |bits| && n <= 32
             case Counted => start + n < |bits| && bits[start + n] == 1 && n <= 32
             case TooMany => n > 32
    ensures CountedZeros(bits, start, n, outcome)
  {
    ZerosCount(bits, start, n);
  }

  /** The first loop of the decoder, up to the one. */
  method CountLeadingZeros(data: Bytes, start: nat) returns (leadingZeros: nat, outcome: Count)
    ensures CountedZeros(Bits(data), start, leadingZeros, outcome)
  {
    ghost var bits := Bits(data);
    var offset := start;
    leadingZeros := 0;
    while true
      invariant offset == start + leadingZeros && leadingZeros <= 32 && ZerosSoFar(bits, start, leadingZeros)
      decreases 8 * |data| - offset
    {
      if offset / 8 >= |data| {
        ZerosEnd(bits, start, leadingZeros, NoData);
        return leadingZeros, NoData;
      }
      var b := GetBit(data, offset);
      offset := offset + 1;
      if b == 0 {
        leadingZeros := leadingZeros + 1;
      } else {
        ZerosEnd(bits, start, leadingZeros, Counted);
        return leadingZeros, Counted;
      }
      if leadingZeros > 32 {
        ZerosEnd(bits, start, leadingZeros, TooMany);
        return leadingZeros, TooMany;
      }
    }
  }

  /** The second loop: the suffix, below the bit that stands for the zeros. */
  method ReadSuffix(data: Bytes, first: nat, leadingZeros: nat) returns (info: Option<nat>)
    requires leadingZeros <= 32 && first <= |Bits(data)|
    ensures info.Some? <==> first + leadingZeros <= |Bits(data)|
    ensures info.Some? ==> info.value == Shifted(leadingZeros) + Number(Bits(data), first, leadingZeros)
  {
    ghost var bits := Bits(data);
    var n, offset, i := Shifted(leadingZeros), first, leadingZeros;
    PartialEnds(bits, first, leadingZeros);
    while i > 0
      invariant 0 <= i <= leadingZeros && offset == first + (leadingZeros - i)
      invariant first <= offset <= |bits|
      invariant n == Partial(bits, first, leadingZeros, i)
    {
      if offset / 8 >= |data| {
        return None;
      }
      var b := GetBit(data, offset);
      // Bits i - 1 and below of the number are clear, so that the bitwise or is an addition.
      PartialStep(bits, first, leadingZeros, i);
      n := n + ShiftedBit(b, i - 1);
      offset := offset + 1;
      i := i - 1;
    }
    return Some(n);
  }

  function ShiftedBit(b: Bit, n: nat): nat { b * Pow2(n) }

  /** The number built so far when `i` of the `z` suffix bits are still to come. */
  ghost function Partial(bits: seq<Bit>, first: nat, z: nat, i: nat): nat
    requires i <= z <= 32 && first + (z - i) <= |bits|
  {
    Shifted(z) + Number(bits, first, z - i) * Pow2(i)
  }

  lemma PartialEnds(bits: seq<Bit>, first: nat, z: nat)
    requires z <= 32 && first <= |bits|
    ensures Partial(bits, first, z, z) == Shifted(z)
    ensures first + z <= |bits| ==> Partial(bits, first, z, 0) == Shifted(z) + Number(bits, first, z)
  {
    assert Number(bits, first, 0) == 0;
  }

  /** One bit more of the suffix. */
  lemma PartialStep(bits: seq<Bit>, first: nat, z: nat, i: nat)
    requires 0 < i <= z <= 32 && first + (z - i) < |bits|
    ensures Partial(bits, first, z, i) + ShiftedBit(bits[first + (z - i)], i - 1) == Partial(bits, first, z, i - 1)
  {
    var m, p, b := Number(bits, first, z - i), Pow2(i - 1), bits[first + (z - i)];
    Double(m, p, b);
    assert Pow2(i) == 2 * p;
  }

  lemma Double(m: nat, p: nat, b: Bit)
    ensures m * (2 * p) + b * p == (2 * m + b) * p
  {
  }

  /** The wrapping subtraction gives the remainder. */
  lemma WrapIsMod(z: nat, suffix: nat)
    requires z <= 32 && suffix < Pow2(z)
    ensures var info := Shifted(z) + suffix;
            info < UINT32 && (if info == 0 then UINT32 - 1 else info - 1) == Meaning(z, suffix)
  {
    ShiftedIs(z);
    Pow2Of32();
    if z < 32 {
      Pow2Monotone(z + 1, 32);
    }
  }

  /** The shift, the subtraction and the addition of `ReadUE`, each of which wraps. */
  method WrappedSum(z: nat, suffix: nat) returns (r: nat)
    requires z <= 32 && suffix < Pow2(z)
    ensures r == Meaning(z, suffix)
  {
    WrapIsMod(z, suffix);
    r := (Shifted(z) + UINT32 - 1 + suffix) % UINT32;
  }

  // The bit reader of the group-of-pictures buffer.

  class SimpleBitReader {
    const data: Bytes
    var bytePos: nat
    var bitPos: nat

    ghost predicate Valid()
      reads this
    {
      bitPos < 8 && bytePos <= |data| && (bytePos == |data| ==> bitPos == 0)
    }

    function Position(): nat
      reads this
    {
      8 * bytePos + bitPos
    }

    constructor (data: Bytes)
      ensures Valid() && Position() == 0 && this.data == data
    {
      this.data := data;
      bytePos, bitPos := 0, 0;
    }

    method ReadBit() returns (r: Option<Bit>)
      requires Valid()
      modifies this
      ensures Valid()
      ensures r.None? <==> old(Position()) == |Bits(data)|
      ensures r.None? ==> Position() == old(Position())
      ensures r.Some? ==> Position() == old(Position()) + 1 <= |Bits(data)| && r.value == Bits(data)[old(Position())]
    {
      if bytePos >= |data| {
        return None;
      }
      var bit := data[bytePos] / Pow2(7 - bitPos) % 2;
      assert Position() / 8 == bytePos && Position() % 8 == bitPos;
      bitPos := bitPos + 1;
      if bitPos >= 8 {
        bitPos := 0;
        bytePos := bytePos + 1;
      }
      return Some(bit);
    }

    /** The value is reported with the position the reader has moved to. */
    method ReadUE() returns (r: Decoded)
      requires Valid()
      modifies this
      ensures Valid() && r == Ue(Bits(data), old(Position()))
      ensures r.Value? ==> Position() == r.next
    {
      ghost var start := Position();
      var leadingZeros, outcome := SkipZeros();
      if outcome != Counted {
        return if outcome == NoData then EndOfData else TooManyZeros;
      }
      UeIs(Bits(data), start, leadingZeros);
      var value := ReadRest(leadingZeros);
      return if value.None? then EndOfData else Value(value.value, Position());
    }

    /** What follows the one, and the value. */
    method ReadRest(leadingZeros: nat) returns (r: Option<nat>)
      requires Valid() && leadingZeros <= 32
      modifies this
      ensures Valid()
      ensures r.Some? <==> old(Position()) + leadingZeros <= |Bits(data)|
      ensures r.Some? ==> Position() == old(Position()) + leadingZeros &&
                          r.value == Meaning(leadingZeros, Number(Bits(data), old(Position()), leadingZeros))
    {
      if leadingZeros == 0 {
        assert Meaning(0, 0) == 0;
        return Some(0);
      }
      var value := ReadValue(leadingZeros);
      if value.None? {
        return None;
      }
      var meaning := WrappedSum(leadingZeros, value.value);
      return Some(meaning);
    }

    /** The first loop of `ReadUE`, which stops behind the one. */
    method SkipZeros() returns (leadingZeros: nat, outcome: Count)
      requires Valid()
      modifies this
      ensures Valid() && CountedZeros(Bits(data), old(Position()), leadingZeros, outcome)
      ensures outcome == Counted ==> Position() == old(Position()) + leadingZeros + 1
    {
      ghost var bits, start := Bits(data), Position();
      leadingZeros := 0;
      while true
        invariant Valid() && Position() == start + leadingZeros && leadingZeros <= 32
        invariant ZerosSoFar(bits, start, leadingZeros)
        decreases 32 - leadingZeros
      {
        var bit := ReadBit();
        if bit.None? {
          ZerosEnd(bits, start, leadingZeros, NoData);
          return leadingZeros, NoData;
        }
        if bit.value == 1 {
          ZerosEnd(bits, start, leadingZeros, Counted);
          return leadingZeros, Counted;
        }
        leadingZeros := leadingZeros + 1;
        if leadingZeros > 32 {
          ZerosEnd(bits, start, leadingZeros, TooMany);
          return leadingZeros, TooMany;
        }
      }
    }

    /** The second loop. Its shifts lose nothing: the value stays below 2^n. */
    method ReadValue(n: nat) returns (value: Option<nat>)
      requires Valid() && n <= 32
      modifies this
      ensures Valid()
      ensures value.Some? <==> old(Position()) + n <= |Bits(data)|
      ensures value.Some? ==> value.value == Number(Bits(data), old(Position()), n) < Pow2(n) && Position() == old(Position()) + n
    {
      ghost var bits, first := Bits(data), Position();
      var v: nat := 0;
      var i := 0;
      while i < n
        invariant i <= n && Valid() && Position() == first + i <= |bits|
        invariant v == Number(bits, first, i)
      {
        if first + i < |bits| {
          NumberNext(bits, first, i);
        }
        var bit := ReadBit();
        if bit.None? {
          return None;
        }
        v := 2 * v + bit.value;
        i := i + 1;
      }
      NumberBound(bits, first, n);
      return Some(v);
    }
  }

  // The encoding.

  function Zeros(n: nat): (z: seq<Bit>)
    ensures |z| == n && forall i :: 0 <= i < n ==> z[i] == 0
  {
    seq(n, _ => 0)
  }

  function Log2(x: nat): (n: nat)
    requires x >= 1
    ensures Pow2(n) <= x < Pow2(n + 1)
  {
    if x == 1 then 0 else 1 + Log2(x / 2)
  }

  /** The last `n` binary digits of `x`. */
  function Binary(x: nat, n: nat): (b: seq<Bit>)
    ensures |b| == n
    decreases n
  {
    if n == 0 then [] else Binary(x / 2, n - 1) + [x % 2]
  }

  function Encode(v: Uint32): seq<Bit> {
    var n := Log2(v + 1);
    Zeros(n) + [1] + Binary(v + 1 - Pow2(n), n)
  }

  function EncodeAll(values: seq<Uint32>): seq<Bit>
    decreases |values|
  {
    if values == [] then [] else Encode(values[0]) + EncodeAll(values[1..])
  }

  /** The decoder called again and again, each time from where it stopped. */
  function UeAll(bits: seq<Bit>, k: nat, count: nat): Option<seq<nat>>
    decreases count
  {
    if count == 0 then Some([])
    else
      match Ue(bits, k)
      case Value(v, next) =>
        var rest := UeAll(bits, next, count - 1);
        if rest.Some? then Some([v] + rest.value) else None
      case _ => None
  }

  ghost predicate Follows(bits: seq<Bit>, k: nat, piece: seq<Bit>) {
    k + |piece| <= |bits| && bits[k..k + |piece|] == piece
  }

  lemma {:induction false} NumberOfBinary(bits: seq<Bit>, k: nat, x: nat, n: nat)
    requires x < Pow2(n) && Follows(bits, k, Binary(x, n))
    ensures Number(bits, k, n) == x
    decreases n
  {
    if n > 0 {
      var b := Binary(x, n);
      assert bits[k + n - 1] == bits[k..k + n][n - 1] == x % 2;
      assert bits[k..k + (n - 1)] == b[..n - 1] == Binary(x / 2, n - 1);
      NumberOfBinary(bits, k, x / 2, n - 1);
    }
  }

  lemma {:induction false} CountZeros(bits: seq<Bit>, k: nat, n: nat)
    requires k + n < |bits| && bits[k + n] == 1
    requires forall i :: k <= i < k + n ==> bits[i] == 0
    ensures LeadingZeros(bits, k) == n
    decreases n
  {
    if n > 0 {
      CountZeros(bits, k + 1, n - 1);
    }
  }

  /** `n` zeros, a one and the `n` digits of `x`. */
  lemma DecodeParts(bits: seq<Bit>, k: nat, n: nat, x: nat)
    requires n <= 32 && x < Pow2(n)
    requires Follows(bits, k, Zeros(n)) && Follows(bits, k + n, [1]) && Follows(bits, k + n + 1, Binary(x, n))
    ensures Ue(bits, k) == Value(Meaning(n, x), k + 2 * n + 1)
  {
    ZerosThenOne(bits, k, n);
    NumberOfBinary(bits, k + n + 1, x, n);
    UeIs(bits, k, n);
  }

  lemma ZerosThenOne(bits: seq<Bit>, k: nat, n: nat)
    requires Follows(bits, k, Zeros(n)) && Follows(bits, k + n, [1])
    ensures LeadingZeros(bits, k) == n
  {
    assert bits[k + n] == bits[k + n..k + n + 1][0];
    assert forall i :: k <= i < k + n ==> bits[i] == bits[k..k + n][i - k];
    CountZeros(bits, k, n);
  }

  lemma Peel(bits: seq<Bit>, k: nat, a: seq<Bit>, b: seq<Bit>)
    requires Follows(bits, k, a + b)
    ensures Follows(bits, k, a) && Follows(bits, k + |a|, b)
  {
    var ab := bits[k..k + |a| + |b|];
    assert bits[k..k + |a|] == ab[..|a|] == a;
    assert bits[k + |a|..k + |a| + |b|] == ab[|a|..] == b;
  }

  lemma PeelCode(bits: seq<Bit>, k: nat, n: nat, x: nat)
    requires Follows(bits, k, Zeros(n) + [1] + Binary(x, n))
    ensures Follows(bits, k, Zeros(n)) && Follows(bits, k + n, [1]) && Follows(bits, k + n + 1, Binary(x, n))
  {
    Peel(bits, k, Zeros(n) + [1], Binary(x, n));
    Peel(bits, k, Zeros(n), [1]);
  }

  /** Every value of 32 bits comes back, the largest included, with the position behind its code. */
  lemma DecodeOne(bits: seq<Bit>, k: nat, v: Uint32)
    requires Follows(bits, k, Encode(v))
    ensures Ue(bits, k) == Value(v, k + |Encode(v)|)
  {
    var n := Log2(v + 1);
    var x := v + 1 - Pow2(n);
    LogBound(v, n);
    assert Meaning(n, x) == v;
    PeelCode(bits, k, n, x);
    DecodeParts(bits, k, n, x);
  }

  lemma LogBound(v: Uint32, n: nat)
    requires n == Log2(v + 1)
    ensures n <= 32
  {
    Pow2Of32();
    assert Pow2(33) == 2 * Pow2(32);
    Pow2Monotone(33, if n > 33 then n else 33);
  }

  lemma {:induction false} DecodeList(bits: seq<Bit>, k: nat, values: seq<Uint32>)
    requires Follows(bits, k, EncodeAll(values))
    ensures UeAll(bits, k, |values|) == Some(values)
    decreases |values|
  {
    if values != [] {
      var code, rest := Encode(values[0]), EncodeAll(values[1..]);
      Peel(bits, k, code, rest);
      DecodeOne(bits, k, values[0]);
      DecodeList(bits, k + |code|, values[1..]);
      assert [values[0]] + values[1..] == values;
    }
  }

  // Bits packed into bytes, with zeros to fill the last one.

  function Digit(bits: seq<Bit>, k: nat): Bit { if k < |bits| then bits[k] else 0 }

  function PackByte(bits: seq<Bit>, k: nat): byte {
    128 * Digit(bits, k) + 64 * Digit(bits, k + 1) + 32 * Digit(bits, k + 2) + 16 * Digit(bits, k + 3)
    + 8 * Digit(bits, k + 4) + 4 * Digit(bits, k + 5) + 2 * Digit(bits, k + 6) + Digit(bits, k + 7)
  }

  function Pack(bits: seq<Bit>): (data: Bytes) {
    seq((|bits| + 7) / 8, i requires 0 <= i => PackByte(bits, 8 * i))
  }

  lemma BitOfByte(bits: seq<Bit>, k: nat, j: nat)
    requires j < 8
    ensures PackByte(bits, k) / Pow2(7 - j) % 2 == Digit(bits, k + j)
  {
    Powers();
    EightBits(Digit(bits, k), Digit(bits, k + 1), Digit(bits, k + 2), Digit(bits, k + 3),
              Digit(bits, k + 4), Digit(bits, k + 5), Digit(bits, k + 6), Digit(bits, k + 7));
  }

  lemma EightBits(a: Bit, b: Bit, c: Bit, d: Bit, e: Bit, f: Bit, g: Bit, h: Bit)
    ensures var n: nat := 128 * a + 64 * b + 32 * c + 16 * d + 8 * e + 4 * f + 2 * g + h;
            && n / 128 % 2 == a && n / 64 % 2 == b && n / 32 % 2 == c && n / 16 % 2 == d
            && n / 8 % 2 == e && n / 4 % 2 == f && n / 2 % 2 == g && n / 1 % 2 == h
  {
    var upper, lower := 8 * a + 4 * b + 2 * c + d, 8 * e + 4 * f + 2 * g + h;
    UpperBits(a, b, c, d, lower);
    LowerBits(upper, e, f, g, h);
  }

  lemma UpperBits(a: Bit, b: Bit, c: Bit, d: Bit, lower: int)
    requires 0 <= lower < 16
    ensures var n: nat := 16 * (8 * a + 4 * b + 2 * c + d) + lower;
            n / 128 % 2 == a && n / 64 % 2 == b && n / 32 % 2 == c && n / 16 % 2 == d
  {
    var n: nat := 16 * (8 * a + 4 * b + 2 * c + d) + lower;
    assert n / 64 == 2 * a + b;
    assert n / 32 == 4 * a + 2 * b + c;
    assert n / 16 == 8 * a + 4 * b + 2 * c + d;
  }

  lemma LowerBits(upper: int, e: Bit, f: Bit, g: Bit, h: Bit)
    requires 0 <= upper < 16
    ensures var n: nat := 16 * upper + 8 * e + 4 * f + 2 * g + h;
            n / 8 % 2 == e && n / 4 % 2 == f && n / 2 % 2 == g && n / 1 % 2 == h
  {
    var n: nat := 16 * upper + 8 * e + 4 * f + 2 * g + h;
    assert n / 8 == 2 * upper + e;
    assert n / 4 == 4 * upper + 2 * e + f;
    assert n / 2 == 8 * upper + 4 * e + 2 * f + g;
  }

  lemma Powers()
    ensures Pow2(0) == 1 && Pow2(1) == 2 && Pow2(2) == 4 && Pow2(3) == 8
    ensures Pow2(4) == 16 && Pow2(5) == 32 && Pow2(6) == 64 && Pow2(7) == 128
  {
  }

  lemma Unpacked(bits: seq<Bit>)
    ensures Follows(Bits(Pack(bits)), 0, bits)
  {
    var data := Pack(bits);
    forall k | 0 <= k < |bits| ensures Bits(data)[k] == bits[k] {
      BitOfByte(bits, 8 * (k / 8), k % 8);
    }
  }

  /** Any list of 32-bit values survives encoding, packing and repeated decoding. */
  lemma RoundTrip(values: seq<Uint32>)
    ensures UeAll(Bits(Pack(EncodeAll(values))), 0, |values|) == Some(values)
  {
    Unpacked(EncodeAll(values));
    DecodeList(Bits(Pack(EncodeAll(values))), 0, values);
  }

  /** Codes with 32 zeros and a suffix other than 0 stand for values beyond 32 bits: these the decoders reduce. */
  lemma BeyondRange(bits: seq<Bit>, k: nat)
    requires Ue(bits, k).Value?
    ensures var z := LeadingZeros(bits, k);
            var meant := Pow2(z) - 1 + Number(bits, k + z + 1, z);
            Ue(bits, k).value == meant <==> z < 32 || Number(bits, k + z + 1, z) == 0
  {
    var z := LeadingZeros(bits, k);
    NumberBound(bits, k + z + 1, z);
    Pow2Of32();
    if z < 32 {
      Pow2Monotone(z + 1, 32);
    }
  }
}
