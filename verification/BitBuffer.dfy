/**
  Machine words as their bits, most significant first, with the operators the bit reader and writer
  use, and the numbers these bits stand for.
 */
module Words {

  type Word = seq<bool>

  type Octet = w: Word | |w| == 8 witness Zeros(8)

  function Zeros(n: nat): (w: Word)
    ensures |w| == n && forall i | 0 <= i < n :: !w[i]
  {
    seq(n, _ => false)
  }

  function Ones(n: nat): (w: Word)
    ensures |w| == n && forall i | 0 <= i < n :: w[i]
  {
    seq(n, _ => true)
  }

  /** `w << k` in the width of `w`. */
  function Shl(w: Word, k: nat): (r: Word)
    requires k <= |w|
    ensures |r| == |w| && forall i | 0 <= i < |w| :: r[i] == (i + k < |w| && w[i + k])
  {
    w[k..] + Zeros(k)
  }

  /** `w >> k` in the width of `w`. */
  function Shr(w: Word, k: nat): (r: Word)
    requires k <= |w|
    ensures |r| == |w| && forall i | 0 <= i < |w| :: r[i] == (i >= k && w[i - k])
  {
    Zeros(k) + w[..|w| - k]
  }

  function And(a: Word, b: Word): (r: Word)
    requires |a| == |b|
    ensures |r| == |a| && forall i | 0 <= i < |a| :: r[i] == (a[i] && b[i])
  {
    seq(|a|, i requires 0 <= i < |a| && |a| == |b| => a[i] && b[i])
  }

  function Or(a: Word, b: Word): (r: Word)
    requires |a| == |b|
    ensures |r| == |a| && forall i | 0 <= i < |a| :: r[i] == (a[i] || b[i])
  {
    seq(|a|, i requires 0 <= i < |a| && |a| == |b| => a[i] || b[i])
  }

  function Not(a: Word): (r: Word)
    ensures |r| == |a| && forall i | 0 <= i < |a| :: r[i] == !a[i]
  {
    seq(|a|, i requires 0 <= i < |a| => !a[i])
  }

  /** The same number in a wider word. */
  function Extend(w: Word, width: nat): (r: Word)
    requires |w| <= width
    ensures |r| == width
  {
    Zeros(width - |w|) + w
  }

  function Power2(n: nat): (p: nat)
    ensures p > 0
  {
    if n == 0 then 1 else 2 * Power2(n - 1)
  }

  /** The number a word stands for. */
  function ToNat(w: Word): nat {
    if w == [] then 0 else 2 * ToNat(w[..|w| - 1]) + if w[|w| - 1] then 1 else 0
  }

  /** The `width` low bits of a number. */
  function FromNat(v: nat, width: nat): (w: Word)
    ensures |w| == width
  {
    if width == 0 then [] else FromNat(v / 2, width - 1) + [v % 2 == 1]
  }

  /** The number of bits in the binary representation of a number. */
  function BitLength(v: nat): nat {
    if v == 0 then 0 else 1 + BitLength(v / 2)
  }

  lemma {:induction false} FromNatBack(v: nat, width: nat)
    requires v < Power2(width)
    ensures ToNat(FromNat(v, width)) == v
    decreases width
  {
    if width > 0 {
      FromNatBack(v / 2, width - 1);
      var w := FromNat(v, width);
      assert w[..width - 1] == FromNat(v / 2, width - 1);
    }
  }

  lemma {:induction false} ToNatBound(w: Word)
    ensures ToNat(w) < Power2(|w|)
    decreases |w|
  {
    if w != [] { ToNatBound(w[..|w| - 1]); }
  }

  /** Leading zeros do not matter. */
  lemma {:induction false} ToNatExtend(w: Word, k: nat)
    ensures ToNat(Zeros(k) + w) == ToNat(w)
    decreases |w|, k
  {
    if w == [] {
      if k > 0 {
        ToNatExtend([], k - 1);
        assert (Zeros(k) + w)[..k - 1] == Zeros(k - 1) + [];
      }
    } else {
      ToNatExtend(w[..|w| - 1], k);
      assert (Zeros(k) + w)[..k + |w| - 1] == Zeros(k) + w[..|w| - 1];
    }
  }

  /** The low bits of a wide word are the bits of the narrow one. */
  lemma {:induction false} FromNatLow(v: nat, width: nat, n: nat)
    requires n <= width
    ensures FromNat(v, width)[width - n..] == FromNat(v, n)
    decreases n
  {
    if n > 0 {
      FromNatLow(v / 2, width - 1, n - 1);
      assert FromNat(v, width)[width - n..] == FromNat(v / 2, width - 1)[width - n..] + [v % 2 == 1];
    }
  }

  /** A small number in a wide word has leading zeros. */
  lemma {:induction false} FromNatHigh(v: nat, k: nat, n: nat)
    requires v < Power2(n)
    ensures FromNat(v, k + n) == Zeros(k) + FromNat(v, n)
    decreases k + n
  {
    if n > 0 {
      FromNatHigh(v / 2, k, n - 1);
    } else if k > 0 {
      FromNatHigh(0, k - 1, 0);
      assert Zeros(k) == Zeros(k - 1) + [false];
    }
  }

  /** `BitLength` is the position of the leading one. */
  lemma {:induction false} BitLengthBounds(v: nat)
    requires v > 0
    ensures BitLength(v) > 0 && Power2(BitLength(v) - 1) <= v < Power2(BitLength(v))
    decreases v
  {
    if v > 1 { BitLengthBounds(v / 2); }
  }

  lemma {:induction false} LeadingOne(v: nat, k: nat)
    requires k > 0 && Power2(k - 1) <= v < Power2(k)
    ensures FromNat(v, k)[0]
    decreases k
  {
    if k > 1 {
      LeadingOne(v / 2, k - 1);
      assert FromNat(v, k)[0] == FromNat(v / 2, k - 1)[0];
    }
  }

  lemma {:induction false} BitLengthAtMost(v: nat, n: nat)
    requires v < Power2(n)
    ensures BitLength(v) <= n
    decreases n
  {
    if v > 0 { BitLengthAtMost(v / 2, n - 1); }
  }
}

/** The byte helpers of the bit reader and writer. */
module BitOps {
  import opened Words

  /** The lowest `n` bits of a byte. */
  function LowestBits(byte: Octet, n: nat): (r: Octet)
    requires n <= 8
    ensures r == Zeros(8 - n) + byte[8 - n..]
  {
    var r := And(byte, Zeros(8 - n) + Ones(n));
    assert forall i | 0 <= i < 8 :: r[i] == (Zeros(8 - n) + byte[8 - n..])[i];
    r
  }

  /** The highest `n` bits of a byte, shifted down. */
  function HighestBits(byte: Octet, n: nat): (r: Octet)
    requires n <= 8
    ensures r == Zeros(8 - n) + byte[..n]
  {
    var shift := 8 - n;
    var mask := Shl(Ones(8), shift);
    var r := Shr(And(byte, mask), shift);
    assert forall i | 0 <= i < 8 :: r[i] == (Zeros(8 - n) + byte[..n])[i];
    r
  }

  /** The highest byte of a 64-bit value: `val >> 56`, truncated to eight bits. */
  function HighestByte(val: Word): (r: Octet)
    requires |val| == 64
    ensures r == val[..8]
  {
    var r := Shr(val, 56)[56..];
    assert forall i | 0 <= i < 8 :: r[i] == val[i];
    r
  }

  /** Puts the highest `count` bits of `source` into `target`, `offset` bits from the top. The rest of
      `source` is not masked off, so its bits that fall into the target have to be zero. */
  function WritePartialByte(source: Octet, count: nat, target: Octet, offset: nat): (r: Octet)
    requires offset < 8 && count <= 8 - offset
    ensures (forall i | count <= i < 8 - offset :: !source[i]) ==>
      r == target[..offset] + source[..count] + target[offset + count..]
  {
    var mask := Shr(Shl(Ones(8), 8 - count), offset);
    var r := Or(And(target, Not(mask)), Shr(source, offset));
    assert (forall i | count <= i < 8 - offset :: !source[i]) ==>
        forall k | 0 <= k < 8 :: r[k] == (target[..offset] + source[..count] + target[offset + count..])[k];
    r
  }
}

/**
  The codes as bit strings, and what a reader makes of them: fixed-width numbers, unsigned and signed
  Exp-Golomb codes (sections 9.1 and 9.1.1 of ITU-T H.264), and non-symmetric numbers (section 4.10.7
  of the AV1 specification).
 */
module BitCodes {
  import opened Bytes
  import opened Words

  const UINT32_MAX: nat := 0xFFFF_FFFF
  const INT32_LIMIT: nat := 0x8000_0000

  datatype Item =
    | Raw(value: nat, width: nat)
    | Golomb(value: nat)
    | SignedGolomb(signed: int)
    | NonSymmetric(value: nat, numValues: nat)

  predicate Encodable(item: Item) {
    match item
    case Raw(value, width) => 0 < width <= 32 && value < Power2(width)
    case Golomb(value) => value < UINT32_MAX
    case SignedGolomb(signed) => -(INT32_LIMIT as int) < signed < INT32_LIMIT
    case NonSymmetric(value, numValues) => 2 <= numValues < INT32_LIMIT && value < numValues
  }

  function GolombCode(v: nat): (w: Word)
    ensures |w| > 0
  {
    FromNat(v + 1, 2 * BitLength(v + 1) - 1)
  }

  function SignedToUnsigned(v: int): nat {
    if v > 0 then 2 * v - 1 else -2 * v
  }

  function UnsignedToSigned(u: nat): int {
    if u % 2 == 0 then -(u / 2) else (u + 1) / 2
  }

  /** The signed numbers come in the order 0, 1, -1, 2, -2, and so on. */
  lemma SignedSequence(u: nat)
    ensures UnsignedToSigned(0) == 0
    ensures var s := UnsignedToSigned(u); UnsignedToSigned(u + 1) == if s > 0 then -s else 1 - s
    ensures UnsignedToSigned(SignedToUnsigned(UnsignedToSigned(u))) == UnsignedToSigned(u)
  {
    assert u % 2 == 0 || u % 2 == 1;
  }

  /** As many zeros as the number, increased by one, has digits behind its leading one, and then those
      digits. */
  lemma GolombShape(v: nat)
    ensures var z := BitLength(v + 1) - 1;
      z >= 0 && Power2(z) <= v + 1 < 2 * Power2(z) && GolombCode(v) == Zeros(z) + [true] + FromNat(v + 1 - Power2(z), z)
  {
    BitLengthBounds(v + 1);
    var z := BitLength(v + 1) - 1;
    FromNatHigh(v + 1, z, z + 1);
    FirstDigit(v + 1 - Power2(z), z);
  }

  lemma {:induction false} FirstDigit(r: nat, z: nat)
    requires r < Power2(z)
    ensures FromNat(Power2(z) + r, z + 1) == [true] + FromNat(r, z)
    decreases z
  {
    if z > 0 { FirstDigit(r / 2, z - 1); }
  }

  /** The beginning of the table in section 9.1 of ITU-T H.264. */
  lemma GolombTable()
    ensures GolombCode(0) == [true]
    ensures GolombCode(1) == [false, true, false] && GolombCode(2) == [false, true, true]
    ensures GolombCode(3) == [false, false, true, false, false] && GolombCode(4) == [false, false, true, false, true]
  {
  }

  /** Five values: three with two bits, two with three. */
  lemma NonSymmetricTable()
    ensures NonSymmetricCode(0, 5) == [false, false] && NonSymmetricCode(1, 5) == [false, true]
    ensures NonSymmetricCode(2, 5) == [true, false]
    ensures NonSymmetricCode(3, 5) == [true, true, false] && NonSymmetricCode(4, 5) == [true, true, true]
  {
    assert BitLength(5) == 3 && Power2(3) == 8;
  }

  /** How many of the values are coded with one bit less. */
  function MinBitsValues(n: nat): nat
    requires n > 0
  {
    BitLengthBounds(n);
    Power2(BitLength(n)) - n
  }

  /** The first `m` values take one bit less than `k`. */
  function TwoLengthCode(v: nat, k: nat, m: nat): Word
    requires k > 0
  {
    if v < m then FromNat(v, k - 1) else FromNat(v + m, k)
  }

  function NonSymmetricCode(v: nat, n: nat): Word
    requires n > 0
  {
    BitLengthBounds(n);
    TwoLengthCode(v, BitLength(n), MinBitsValues(n))
  }

  function Code(item: Item): Word
    requires Encodable(item)
  {
    match item
    case Raw(value, width) => FromNat(value, width)
    case Golomb(value) => GolombCode(value)
    case SignedGolomb(signed) => GolombCode(SignedToUnsigned(signed))
    case NonSymmetric(value, numValues) => NonSymmetricCode(value, numValues)
  }

  /** The result of a read: the value, or none, and the position after it. */
  datatype Read<T> = Read(result: Option<T>, position: nat)

  /** `count` bits as a number; the position moves only if they are all there. */
  function DecodeRaw(bits: seq<bool>, p: nat, count: nat): Read<nat>
    requires p <= |bits|
  {
    if count <= |bits| - p && count <= 32 then Read(Some(ToNat(bits[p..p + count])), p + count) else Read(None, p)
  }

  function LeadingZeros(bits: seq<bool>, p: nat): (n: nat)
    requires p <= |bits|
    ensures p + n <= |bits|
    decreases |bits| - p
  {
    if p == |bits| || bits[p] then 0 else 1 + LeadingZeros(bits, p + 1)
  }

  /** As many bits after a one as there are zeros before it. A failed read does not move. */
  function DecodeGolomb(bits: seq<bool>, p: nat): Read<nat>
    requires p <= |bits|
  {
    var r := BehindZeros(bits, p);
    if r.result.None? then Read(None, p)
    else GolombPositive(bits, p); Read(Some(r.result.value - 1), r.position)
  }

  function BehindZeros(bits: seq<bool>, p: nat): Read<nat>
    requires p <= |bits|
  {
    var zeros := LeadingZeros(bits, p);
    DecodeRaw(bits, p + zeros, zeros + 1)
  }

  lemma {:induction false} ZerosEnd(bits: seq<bool>, p: nat)
    requires p <= |bits|
    ensures var z := LeadingZeros(bits, p);
      (forall k | p <= k < p + z :: !bits[k]) && (p + z < |bits| ==> bits[p + z])
    decreases |bits| - p
  {
    if p < |bits| && !bits[p] { ZerosEnd(bits, p + 1); }
  }

  lemma {:induction false} LeadingBitPositive(w: Word)
    requires w != [] && w[0]
    ensures ToNat(w) > 0
    decreases |w|
  {
    if |w| > 1 { LeadingBitPositive(w[..|w| - 1]); }
  }

  /** The number read for an Exp-Golomb code starts with a one, so one can be subtracted. */
  lemma GolombPositive(bits: seq<bool>, p: nat)
    requires p <= |bits|
    ensures BehindZeros(bits, p).result.Some? ==> BehindZeros(bits, p).result.value > 0
  {
    var z := LeadingZeros(bits, p);
    ZerosEnd(bits, p);
    if z + 1 <= |bits| - (p + z) { LeadingBitPositive(bits[p + z..p + z + z + 1]); }
  }

  /** A second, failing read leaves the position behind the first. */
  function DecodeTwoLengths(bits: seq<bool>, p: nat, k: nat, m: nat): Read<nat>
    requires p <= |bits| && k > 0
  {
    var first := DecodeRaw(bits, p, k - 1);
    if first.result.None? || first.result.value < m then first
    else
      var extra := DecodeRaw(bits, first.position, 1);
      if extra.result.None? then extra
      else Read(Some(2 * first.result.value + extra.result.value - m), extra.position)
  }

  function DecodeNonSymmetric(bits: seq<bool>, p: nat, n: nat): Read<nat>
    requires p <= |bits| && n >= 2
  {
    BitLengthBounds(n);
    DecodeTwoLengths(bits, p, BitLength(n), MinBitsValues(n))
  }

  /** What a typed read finds at position `p`: `kind` gives the type and its parameters, not the value. */
  function Decode(bits: seq<bool>, p: nat, kind: Item): Read<Item>
    requires p <= |bits| && (kind.NonSymmetric? ==> kind.numValues >= 2)
  {
    match kind
    case Raw(_, width) =>
      var r := DecodeRaw(bits, p, width);
      Read(if r.result.None? then None else Some(Raw(r.result.value, width)), r.position)
    case Golomb(_) =>
      var r := DecodeGolomb(bits, p);
      Read(if r.result.None? then None else Some(Golomb(r.result.value)), r.position)
    case SignedGolomb(_) =>
      var r := DecodeGolomb(bits, p);
      Read(if r.result.None? then None else Some(SignedGolomb(UnsignedToSigned(r.result.value))), r.position)
    case NonSymmetric(_, n) =>
      var r := DecodeNonSymmetric(bits, p, n);
      Read(if r.result.None? then None else Some(NonSymmetric(r.result.value, n)), r.position)
  }

  predicate StandsAt(bits: seq<bool>, p: nat, w: Word) {
    p + |w| <= |bits| && bits[p..p + |w|] == w
  }

  lemma StandsSplit(bits: seq<bool>, p: nat, a: Word, b: Word)
    requires StandsAt(bits, p, a + b)
    ensures StandsAt(bits, p, a) && StandsAt(bits, p + |a|, b)
  {
    var c := bits[p..p + |a| + |b|];
    assert bits[p..p + |a|] == c[..|a|];
    assert bits[p + |a|..p + |a| + |b|] == c[|a|..];
  }

  lemma Power32()
    ensures Power2(32) == UINT32_MAX + 1 && Power2(31) == INT32_LIMIT
  {
    assert Power2(8) == 256;
    assert Power2(16) == 65536;
    assert Power2(24) == 16777216;
  }

  lemma {:induction false} LeadingZerosIs(bits: seq<bool>, p: nat, z: nat)
    requires StandsAt(bits, p, Zeros(z)) && p + z < |bits| && bits[p + z]
    ensures LeadingZeros(bits, p) == z
    decreases z
  {
    if z > 0 {
      assert Zeros(z) == [false] + Zeros(z - 1);
      StandsSplit(bits, p, [false], Zeros(z - 1));
      assert bits[p] == bits[p..p + 1][0];
      LeadingZerosIs(bits, p + 1, z - 1);
    }
  }

  lemma RawReads(bits: seq<bool>, p: nat, w: Word)
    requires |w| <= 32 && StandsAt(bits, p, w)
    ensures DecodeRaw(bits, p, |w|) == Read(Some(ToNat(w)), p + |w|)
  {
  }

  lemma RawReadsBack(bits: seq<bool>, p: nat, v: nat, width: nat)
    requires v < Power2(width) && width <= 32 && StandsAt(bits, p, FromNat(v, width))
    ensures DecodeRaw(bits, p, width) == Read(Some(v), p + width)
  {
    RawReads(bits, p, FromNat(v, width));
    FromNatBack(v, width);
  }

  lemma GolombReadsBack(bits: seq<bool>, p: nat, v: nat)
    requires v < UINT32_MAX && StandsAt(bits, p, GolombCode(v))
    ensures DecodeGolomb(bits, p) == Read(Some(v), p + |GolombCode(v)|)
  {
    var k, c := BitLength(v + 1), GolombCode(v);
    BitLengthBounds(v + 1);
    Power32();
    BitLengthAtMost(v + 1, 32);
    FromNatHigh(v + 1, k - 1, k);
    LeadingOne(v + 1, k);
    GolombReadsBackAt(bits, p, v + 1, k);
  }

  lemma GolombReadsBackAt(bits: seq<bool>, p: nat, v: nat, k: nat)
    requires 0 < k <= 32 && 0 < v < Power2(k) && FromNat(v, k)[0]
    requires StandsAt(bits, p, Zeros(k - 1) + FromNat(v, k))
    ensures DecodeGolomb(bits, p) == Read(Some(v - 1), p + 2 * k - 1)
  {
    hide FromNat, ToNat, LeadingZeros;
    StandsSplit(bits, p, Zeros(k - 1), FromNat(v, k));
    assert bits[p + k - 1] == bits[p + k - 1..p + k - 1 + k][0];
    LeadingZerosIs(bits, p, k - 1);
    RawReadsBack(bits, p + k - 1, v, k);
  }

  /** A number may be read without its last bit, and the last bit by itself. */
  lemma LastBitApart(bits: seq<bool>, p: nat, x: nat, k: nat)
    requires 0 < k <= 32 && x < Power2(k) && StandsAt(bits, p, FromNat(x, k))
    ensures DecodeRaw(bits, p, k - 1) == Read(Some(x / 2), p + k - 1)
    ensures DecodeRaw(bits, p + k - 1, 1) == Read(Some(x % 2), p + k)
  {
    AllButLast(bits, p, x, k);
    LastAlone(bits, p, x, k);
  }

  lemma AllButLast(bits: seq<bool>, p: nat, x: nat, k: nat)
    requires 0 < k <= 32 && x < Power2(k) && StandsAt(bits, p, FromNat(x, k))
    ensures DecodeRaw(bits, p, k - 1) == Read(Some(x / 2), p + k - 1)
  {
    HalfFits(x, k);
    StandsSplit(bits, p, FromNat(x / 2, k - 1), [x % 2 == 1]);
    RawReadsBack(bits, p, x / 2, k - 1);
  }

  lemma LastAlone(bits: seq<bool>, p: nat, x: nat, k: nat)
    requires 0 < k <= 32 && StandsAt(bits, p, FromNat(x, k))
    ensures DecodeRaw(bits, p + k - 1, 1) == Read(Some(x % 2), p + k)
  {
    StandsSplit(bits, p, FromNat(x / 2, k - 1), [x % 2 == 1]);
    RawReads(bits, p + k - 1, [x % 2 == 1]);
    OneBitNumber(x % 2 == 1);
  }

  lemma HalfFits(x: nat, k: nat)
    requires 0 < k && x < Power2(k)
    ensures x / 2 < Power2(k - 1)
  {
  }

  lemma OneBitNumber(b: bool)
    ensures ToNat([b]) == if b then 1 else 0
  {
    assert [b][..0] == [];
  }

  lemma NonSymmetricReadsBack(bits: seq<bool>, p: nat, v: nat, n: nat)
    requires 2 <= n < INT32_LIMIT && v < n && StandsAt(bits, p, NonSymmetricCode(v, n))
    ensures DecodeNonSymmetric(bits, p, n) == Read(Some(v), p + |NonSymmetricCode(v, n)|)
  {
    NonSymmetricWidths(n);
    if v < MinBitsValues(n) {
      ShortReadsBack(bits, p, v, BitLength(n), MinBitsValues(n));
    } else {
      LongReadsBack(bits, p, v, BitLength(n), MinBitsValues(n));
    }
  }

  lemma NonSymmetricWidths(n: nat)
    requires 2 <= n < INT32_LIMIT
    ensures 2 <= BitLength(n) <= 31
    ensures MinBitsValues(n) <= Power2(BitLength(n) - 1) && MinBitsValues(n) + n == Power2(BitLength(n))
  {
    BitLengthBounds(n);
    Power32();
    BitLengthAtMost(n, 31);
  }

  lemma ShortReadsBack(bits: seq<bool>, p: nat, v: nat, k: nat, m: nat)
    requires 0 < k <= 32 && v < m <= Power2(k - 1) && StandsAt(bits, p, FromNat(v, k - 1))
    ensures DecodeTwoLengths(bits, p, k, m) == Read(Some(v), p + k - 1)
  {
    RawReadsBack(bits, p, v, k - 1);
  }

  lemma LongReadsBack(bits: seq<bool>, p: nat, v: nat, k: nat, m: nat)
    requires 0 < k <= 32 && m <= v && v + m < Power2(k) && StandsAt(bits, p, FromNat(v + m, k))
    ensures DecodeTwoLengths(bits, p, k, m) == Read(Some(v), p + k)
  {
    LastBitApart(bits, p, v + m, k);
    TwoReads(bits, p, v, k, m);
  }

  lemma TwoReads(bits: seq<bool>, p: nat, v: nat, k: nat, m: nat)
    requires 0 < k && p + k <= |bits| && m <= v
    requires DecodeRaw(bits, p, k - 1) == Read(Some((v + m) / 2), p + k - 1)
    requires DecodeRaw(bits, p + k - 1, 1) == Read(Some((v + m) % 2), p + k)
    ensures DecodeTwoLengths(bits, p, k, m) == Read(Some(v), p + k)
  {
  }

  /** Every number that a non-symmetric read delivers is one of the `n` values. */
  lemma NonSymmetricInRange(bits: seq<bool>, p: nat, n: nat)
    requires p <= |bits| && 2 <= n < INT32_LIMIT && DecodeNonSymmetric(bits, p, n).result.Some?
    ensures DecodeNonSymmetric(bits, p, n).result.value < n
  {
    var k := BitLength(n);
    BitLengthBounds(n);
    ToNatBound(bits[p..p + k - 1]);
    if p + k <= |bits| { ToNatBound(bits[p + k - 1..p + k]); }
  }

  lemma SignedBack(v: int)
    ensures UnsignedToSigned(SignedToUnsigned(v)) == v
  {
  }

  /** Each code is self-delimiting: whatever follows it, the matching read gives the value back and
      ends where the code ends. */
  lemma CodeReadsBack(bits: seq<bool>, p: nat, item: Item)
    requires Encodable(item) && StandsAt(bits, p, Code(item))
    ensures Decode(bits, p, item) == Read(Some(item), p + |Code(item)|)
  {
    match item
    case Raw(value, width) => RawReadsBack(bits, p, value, width);
    case Golomb(value) => GolombReadsBack(bits, p, value);
    case SignedGolomb(signed) => SignedReadsBack(bits, p, signed);
    case NonSymmetric(value, numValues) => NonSymmetricReadsBack(bits, p, value, numValues);
  }

  lemma SignedReadsBack(bits: seq<bool>, p: nat, v: int)
    requires Encodable(SignedGolomb(v)) && StandsAt(bits, p, GolombCode(SignedToUnsigned(v)))
    ensures Decode(bits, p, SignedGolomb(v)) == Read(Some(SignedGolomb(v)), p + |GolombCode(SignedToUnsigned(v))|)
  {
    GolombReadsBack(bits, p, SignedToUnsigned(v));
    SignedBack(v);
  }

  predicate AllEncodable(items: seq<Item>) {
    forall i | 0 <= i < |items| :: Encodable(items[i])
  }

  // Sequences of values, for any code.

  function Joined(items: seq<Item>, code: Item -> Word): Word {
    if items == [] then [] else code(items[0]) + Joined(items[1..], code)
  }

  function ReadEach(p: nat, end: nat, kinds: seq<Item>, decode: (nat, Item) -> Read<Item>): Read<seq<Item>>
    decreases |kinds|
  {
    if kinds == [] then Read(Some([]), p)
    else
      var r := decode(p, kinds[0]);
      if r.result.None? || r.position > end then Read(None, r.position)
      else
        var more := ReadEach(r.position, end, kinds[1..], decode);
        Read(if more.result.None? then None else Some([r.result.value] + more.result.value), more.position)
  }

  lemma {:induction false} JoinedAppend(items: seq<Item>, item: Item, code: Item -> Word)
    ensures Joined(items + [item], code) == Joined(items, code) + code(item)
    decreases |items|
  {
    if items == [] {
      assert items + [item] == [item] && [item][1..] == [];
    } else {
      JoinedAppend(items[1..], item, code);
      assert (items + [item])[1..] == items[1..] + [item];
    }
  }

  lemma {:induction false} JoinedMonotone(items: seq<Item>, k: nat, code: Item -> Word)
    requires k <= |items|
    ensures |Joined(items[..k], code)| <= |Joined(items, code)|
    decreases k
  {
    if k > 0 {
      JoinedMonotone(items[1..], k - 1, code);
      assert items[..k][1..] == items[1..][..k - 1];
    }
  }

  /** Codes that are self-delimiting one by one are so in a row. */
  lemma {:induction false} JoinedReadsBack(bits: seq<bool>, p: nat, items: seq<Item>, code: Item -> Word,
                                           decode: (nat, Item) -> Read<Item>)
    requires forall i, q: nat | 0 <= i < |items| && StandsAt(bits, q, code(items[i])) ::
      decode(q, items[i]) == Read(Some(items[i]), q + |code(items[i])|)
    requires StandsAt(bits, p, Joined(items, code))
    ensures ReadEach(p, |bits|, items, decode) == Read(Some(items), p + |Joined(items, code)|)
    decreases |items|
  {
    if items != [] {
      var c, rest := code(items[0]), items[1..];
      StandsSplit(bits, p, c, Joined(rest, code));
      assert decode(p, items[0]) == Read(Some(items[0]), p + |c|);
      forall i, q: nat | 0 <= i < |rest| && StandsAt(bits, q, code(rest[i]))
        ensures decode(q, rest[i]) == Read(Some(rest[i]), q + |code(rest[i])|)
      {
        assert rest[i] == items[i + 1];
      }
      JoinedReadsBack(bits, p + |c|, rest, code, decode);
      assert [items[0]] + rest == items;
    }
  }

  function Coder(): Item -> Word {
    item => if Encodable(item) then Code(item) else []
  }

  function Decoder(bits: seq<bool>): (nat, Item) -> Read<Item> {
    (p: nat, kind: Item) => if p <= |bits| && Encodable(kind) then Decode(bits, p, kind) else Read(None, p)
  }

  function Codes(items: seq<Item>): Word
    requires AllEncodable(items)
  {
    Joined(items, Coder())
  }

  function DecodeAll(bits: seq<bool>, p: nat, kinds: seq<Item>): Read<seq<Item>>
    requires p <= |bits| && AllEncodable(kinds)
  {
    ReadEach(p, |bits|, kinds, Decoder(bits))
  }

  lemma CodesAppend(items: seq<Item>, item: Item)
    requires AllEncodable(items) && Encodable(item)
    ensures Codes(items + [item]) == Codes(items) + Code(item)
  {
    JoinedAppend(items, item, Coder());
  }

  lemma CodesMonotone(items: seq<Item>, k: nat)
    requires k <= |items| && AllEncodable(items)
    ensures |Codes(items[..k])| <= |Codes(items)|
  {
    JoinedMonotone(items, k, Coder());
  }

  /** Any sequence of typed values is read back, wherever its codes stand in the buffer. */
  lemma CodesReadBack(bits: seq<bool>, p: nat, items: seq<Item>)
    requires AllEncodable(items) && StandsAt(bits, p, Codes(items))
    ensures DecodeAll(bits, p, items) == Read(Some(items), p + |Codes(items)|)
  {
    forall i, q: nat | 0 <= i < |items| && StandsAt(bits, q, Coder()(items[i]))
      ensures Decoder(bits)(q, items[i]) == Read(Some(items[i]), q + |Coder()(items[i])|)
    {
      CodeReadsBack(bits, q, items[i]);
    }
    JoinedReadsBack(bits, p, items, Coder(), Decoder(bits));
  }
}

/** `BitBuffer` and `BitBufferWriter`. */
module BitBuffer {
  import opened Bytes
  import opened Words
  import opened BitOps
  import opened BitCodes

  /** All bits of the bytes, in reading order. */
  ghost function BitsOf(bytes: seq<Octet>): (bits: seq<bool>)
    ensures |bits| == 8 * |bytes|
  {
    if bytes == [] then [] else bytes[0] + BitsOf(bytes[1..])
  }

  lemma {:induction false} ByteBits(bytes: seq<Octet>, i: nat)
    requires i < |bytes|
    ensures BitsOf(bytes)[8 * i..8 * i + 8] == bytes[i]
    decreases i
  {
    if i > 0 {
      ByteBits(bytes[1..], i - 1);
      assert BitsOf(bytes)[8 * i..8 * i + 8] == BitsOf(bytes[1..])[8 * (i - 1)..8 * (i - 1) + 8];
    }
  }

  /** Storing a byte replaces its eight bits. */
  lemma {:induction false} StoreBits(bytes: seq<Octet>, i: nat, b: Octet)
    requires i < |bytes|
    ensures BitsOf(bytes[i := b]) == BitsOf(bytes)[..8 * i] + b + BitsOf(bytes)[8 * i + 8..]
    decreases i
  {
    var rest := bytes[1..];
    if i == 0 {
      assert bytes[i := b][1..] == rest;
    } else {
      assert bytes[i := b][1..] == rest[i - 1 := b];
      StoreBits(rest, i - 1, b);
      assert BitsOf(bytes)[..8 * i] == bytes[0] + BitsOf(rest)[..8 * (i - 1)];
      assert BitsOf(bytes)[8 * i + 8..] == BitsOf(rest)[8 * (i - 1) + 8..];
    }
  }

  /** `w` in place of as many bits from position `p` on. */
  ghost function Splice(bits: seq<bool>, p: nat, w: Word): (r: seq<bool>)
    requires p + |w| <= |bits|
    ensures |r| == |bits|
  {
    bits[..p] + w + bits[p + |w|..]
  }

  lemma SpliceTwice(bits: seq<bool>, p: nat, a: Word, b: Word)
    requires p + |a| + |b| <= |bits|
    ensures Splice(Splice(bits, p, a), p + |a|, b) == Splice(bits, p, a + b)
  {
  }

  lemma WholeSplice(bits: seq<bool>, p: nat, w: Word, first: nat)
    requires p + |w| <= |bits| && first <= |w|
    ensures Splice(Splice(bits, p, w[..first]), p + first, w[first..]) == Splice(bits, p, w)
    ensures first == |w| ==> w[..first] == w
  {
    SpliceTwice(bits, p, w[..first], w[first..]);
    assert w[..first] + w[first..] == w;
  }

  predicate ClearBetween(w: Word, from: nat, to: nat)
    requires to <= |w|
  {
    forall k | from <= k < to :: !w[k]
  }

  /** The bits of `val` from `done` on, pushed to the top of the word. */
  function From(val: Word, done: nat): (v: Word)
    requires done <= |val|
    ensures |v| == |val|
  {
    val[done..] + Zeros(done)
  }

  /** One more byte: what is stored, what is left in the word, and what has been written by then. */
  lemma NextByte(bits: seq<bool>, p: nat, val: Word, done: nat)
    requires |val| == 64 && done + 8 <= 64 && p + done + 8 <= |bits|
    ensures HighestByte(From(val, done)) == val[done..done + 8]
    ensures Shl(From(val, done), 8) == From(val, done + 8)
    ensures Splice(Splice(bits, p, val[..done]), p + done, val[done..done + 8]) == Splice(bits, p, val[..done + 8])
  {
    SpliceTwice(bits, p, val[..done], val[done..done + 8]);
    assert val[..done] + val[done..done + 8] == val[..done + 8];
    assert From(val, done)[..8] == val[done..done + 8];
    assert Zeros(done) + Zeros(8) == Zeros(done + 8);
  }

  lemma LastBits(bits: seq<bool>, p: nat, val: Word, done: nat, n: nat)
    requires |val| == 64 && n <= 8 && done + n <= 64 && p + done + n <= |bits|
    requires ClearBetween(val, done + n, 64)
    ensures HighestByte(From(val, done))[..n] == val[done..done + n]
    ensures ClearBetween(HighestByte(From(val, done)), n, 8)
    ensures Splice(Splice(bits, p, val[..done]), p + done, val[done..done + n]) == Splice(bits, p, val[..done + n])
  {
    SpliceTwice(bits, p, val[..done], val[done..done + n]);
    assert val[..done] + val[done..done + n] == val[..done + n];
    var v := From(val, done);
    assert forall k | 0 <= k < 8 && done + k < 64 :: v[k] == val[done + k];
  }

  /** The value pushed to the top of the word: what goes into the first byte, and what is left. */
  lemma FirstBits(val: Word, count: nat, first: nat)
    requires |val| == 64 && first <= count <= 64 && first <= 8
    ensures HighestByte(Shl(val, 64 - count))[..first] == val[64 - count..][..first]
    ensures ClearBetween(HighestByte(Shl(val, 64 - count)), count, 8)
  {
    var w, shifted := val[64 - count..], Shl(val, 64 - count);
    assert forall k | 0 <= k < 64 :: shifted[k] == (k < count && w[k]);
  }

  lemma RestOfBits(val: Word, count: nat, first: nat)
    requires |val| == 64 && first <= count <= 64
    ensures Shl(Shl(val, 64 - count), first)[..count - first] == val[64 - count..][first..]
    ensures ClearBetween(Shl(Shl(val, 64 - count), first), count - first, 64)
  {
    var w, shifted := val[64 - count..], Shl(val, 64 - count);
    assert forall k | 0 <= k < 64 :: shifted[k] == (k < count && w[k]);
    var rest := Shl(shifted, first);
    assert forall k | 0 <= k < 64 :: rest[k] == (k + first < count && w[k + first]);
  }

  /** Replacing some bits of one byte is a splice of all bits. */
  lemma SpliceByte(bytes: seq<Octet>, i: nat, o: nat, w: Word)
    requires i < |bytes| && o + |w| <= 8
    ensures BitsOf(bytes[i := bytes[i][..o] + w + bytes[i][o + |w|..]]) == Splice(BitsOf(bytes), 8 * i + o, w)
  {
    hide BitsOf;
    var b, all := bytes[i], BitsOf(bytes);
    StoreBits(bytes, i, b[..o] + w + b[o + |w|..]);
    ByteBits(bytes, i);
    SpliceWithin(all, b, 8 * i, o, w);
  }

  /** To splice into a part is to splice into the whole. */
  lemma SpliceWithin(all: Word, part: Word, at: nat, o: nat, w: Word)
    requires at + |part| <= |all| && all[at..at + |part|] == part && o + |w| <= |part|
    ensures all[..at] + (part[..o] + w + part[o + |w|..]) + all[at + |part|..] == Splice(all, at + o, w)
  {
    assert all[..at] + part[..o] == all[..at + o];
    assert part[o + |w|..] + all[at + |part|..] == all[at + o + |w|..];
  }

  class BitBuffer {
    const bytes: array<Octet>
    var byteOffset: nat
    var bitOffset: nat

    constructor (bytes: array<Octet>)
      ensures this.bytes == bytes && Valid() && Position() == 0
    {
      this.bytes := bytes;
      byteOffset, bitOffset := 0, 0;
    }

    /** The offsets that `Seek` accepts. */
    ghost predicate Valid()
      reads this
    {
      bitOffset < 8 && byteOffset <= bytes.Length && (byteOffset == bytes.Length ==> bitOffset == 0)
    }

    ghost function Bits(): seq<bool>
      reads this, bytes
    {
      BitsOf(bytes[..])
    }

    ghost function Position(): nat
      reads this
    {
      8 * byteOffset + bitOffset
    }

    function RemainingBitCount(): (n: nat)
      requires Valid()
      reads this
      ensures n == 8 * bytes.Length - Position()
    {
      (bytes.Length - byteOffset) * 8 - bitOffset
    }

    /** The next `count` bits as a 32-bit number, without moving on. */
    method PeekBits(count: nat) returns (ok: bool, val: Word)
      requires Valid() && count > 0
      ensures ok <==> count <= 8 * bytes.Length - Position() && count <= 32
      ensures ok ==> val == Extend(Bits()[Position()..Position() + count], 32)
    {
      ok := count <= RemainingBitCount() && count <= 32;
      if !ok {
        return false, [];
      }
      if count < 8 - bitOffset {
        val := PeekWithin(count);
      } else {
        var bits := PeekRest();
        val := GatherBits(byteOffset + 1, bits, count - (8 - bitOffset), Position());
      }
    }

    /** Fewer bits than what is left of the current byte. */
    method PeekWithin(count: nat) returns (val: Word)
      requires Valid() && byteOffset < bytes.Length && count < 8 - bitOffset
      ensures val == Extend(Bits()[Position()..Position() + count], 32)
    {
      ByteBits(bytes[..], byteOffset);
      PeekWithinByte(Bits(), bytes[byteOffset], byteOffset, bitOffset, count);
      val := Extend(HighestBits(LowestBits(bytes[byteOffset], 8 - bitOffset), bitOffset + count), 32);
    }

    /** All that is left of the current byte. */
    method PeekRest() returns (bits: Word)
      requires Valid() && byteOffset < bytes.Length
      ensures bits == Extend(Bits()[Position()..8 * (byteOffset + 1)], 32)
    {
      ByteBits(bytes[..], byteOffset);
      PeekRestOfByte(Bits(), bytes[byteOffset], byteOffset, bitOffset);
      bits := Extend(LowestBits(bytes[byteOffset], 8 - bitOffset), 32);
    }

    /** The whole bytes, and the bits of a last one, that follow those gathered since position `p`. */
    method GatherBits(first: nat, gathered: Word, count: nat, ghost p: nat) returns (bits: Word)
      requires p <= 8 * first && 8 * first + count <= 8 * bytes.Length && 8 * first + count - p <= 32
      requires gathered == Extend(Bits()[p..8 * first], 32)
      ensures bits == Extend(Bits()[p..8 * first + count], 32)
    {
      ghost var all := Bits();
      var i, left := first, count;
      bits := gathered;
      while left >= 8
        invariant 0 <= left && 8 * i + left == 8 * first + count && p <= 8 * i
        invariant bits == Extend(all[p..8 * i], 32)
      {
        bits := GatherByte(i, bits, p);
        i := i + 1;
        left := left - 8;
      }
      if left > 0 {
        bits := GatherLast(i, bits, left, p);
      }
    }

    method GatherByte(i: nat, gathered: Word, ghost p: nat) returns (bits: Word)
      requires p <= 8 * i && i < bytes.Length && 8 * i + 8 - p <= 32
      requires gathered == Extend(Bits()[p..8 * i], 32)
      ensures bits == Extend(Bits()[p..8 * i + 8], 32)
    {
      ByteBits(bytes[..], i);
      PeekNextBits(Bits(), bytes[i], i, p, 8);
      bits := Or(Shl(gathered, 8), Extend(bytes[i], 32));
    }

    method GatherLast(i: nat, gathered: Word, left: nat, ghost p: nat) returns (bits: Word)
      requires 0 < left < 8 && p <= 8 * i && i < bytes.Length && 8 * i + left - p <= 32
      requires gathered == Extend(Bits()[p..8 * i], 32)
      ensures bits == Extend(Bits()[p..8 * i + left], 32)
    {
      ByteBits(bytes[..], i);
      PeekNextBits(Bits(), bytes[i], i, p, left);
      bits := Or(Shl(gathered, left), Extend(HighestBits(bytes[i], left), 32));
    }

    method ConsumeBits(count: nat) returns (ok: bool)
      requires Valid()
      modifies this
      ensures Valid()
      ensures ok <==> count <= 8 * bytes.Length - old(Position())
      ensures Position() == old(Position()) + if ok then count else 0
    {
      if count > RemainingBitCount() {
        return false;
      }
      var total := bitOffset + count;
      byteOffset := byteOffset + total / 8;
      bitOffset := total % 8;
      ok := true;
    }

    method ReadBits(count: nat) returns (ok: bool, val: Word)
      requires Valid() && count > 0
      modifies this
      ensures Valid()
      ensures ok <==> count <= 8 * bytes.Length - old(Position()) && count <= 32
      ensures ok ==> val == Extend(Bits()[old(Position())..old(Position()) + count], 32)
      ensures Position() == old(Position()) + if ok then count else 0
    {
      ok, val := PeekBits(count);
      if ok {
        ok := ConsumeBits(count);
      }
    }

    /** Puts the highest bits of `source` into byte `i`, `o` bits from the top. */
    method StorePartial(i: nat, o: nat, source: Octet, count: nat)
      requires i < bytes.Length && o < 8 && count <= 8 - o
      requires ClearBetween(source, count, 8 - o)
      modifies bytes
      ensures Bits() == Splice(old(Bits()), 8 * i + o, source[..count])
    {
      SpliceByte(bytes[..], i, o, source[..count]);
      StoreByte(i, WritePartialByte(source, count, bytes[i], o));
    }

    method StoreByte(i: nat, b: Octet)
      requires i < bytes.Length
      modifies bytes
      ensures bytes[..] == old(bytes[..])[i := b]
    {
      bytes[i] := b;
    }

    /** Writes the `count` low bits of `val`, the most significant first. */
    method WriteBits(val: Word, count: nat) returns (ok: bool)
      requires Valid() && |val| == 64 && 0 < count <= 64
      modifies this, bytes
      ensures Valid()
      ensures ok <==> count <= 8 * bytes.Length - old(Position())
      ensures ok ==> Bits() == Splice(old(Bits()), old(Position()), val[64 - count..])
      ensures !ok ==> Bits() == old(Bits())
      ensures Position() == old(Position()) + if ok then count else 0
    {
      if count > RemainingBitCount() {
        return false;
      }
      WriteAll(val, count);
      ok := ConsumeBits(count);
    }

    /** Writes without moving on. */
    method WriteAll(val: Word, count: nat)
      requires Valid() && |val| == 64 && 0 < count <= 64 && count <= 8 * bytes.Length - Position()
      modifies bytes
      ensures Bits() == Splice(old(Bits()), Position(), val[64 - count..])
    {
      ghost var before, p, w := Bits(), Position(), val[64 - count..];
      var first := Min(count, 8 - bitOffset);
      WriteFirst(val, count, first);
      WholeSplice(before, p, w, first);
      if count > first {
        WriteBehindFirst(val, count, first);
      }
    }

    method WriteBehindFirst(val: Word, count: nat, first: nat)
      requires Valid() && |val| == 64 && first < count <= 64 && count <= 8 * bytes.Length - Position()
      requires first == 8 - bitOffset
      modifies bytes
      ensures Bits() == Splice(old(Bits()), Position() + first, val[64 - count..][first..])
    {
      RestOfBits(val, count, first);
      WriteRest(byteOffset + 1, Shl(Shl(val, 64 - count), first), count - first);
    }

    /** The bits that go into the byte at the cursor. */
    method WriteFirst(val: Word, count: nat, first: nat)
      requires Valid() && |val| == 64 && 0 < count <= 64 && count <= 8 * bytes.Length - Position()
      requires first == Min(count, 8 - bitOffset)
      modifies bytes
      ensures Bits() == Splice(old(Bits()), Position(), val[64 - count..][..first])
    {
      var source := HighestByte(Shl(val, 64 - count));
      FirstBits(val, count, first);
      StorePartial(byteOffset, bitOffset, source, first);
    }

    /** The bytes after the first one: whole ones, and the bits of a last one. */
    method WriteRest(start: nat, val: Word, count: nat)
      requires |val| == 64 && count < 64 && 8 * start + count <= 8 * bytes.Length
      requires ClearBetween(val, count, 64)
      modifies bytes
      ensures Bits() == Splice(old(Bits()), 8 * start, val[..count])
    {
      ghost var before := Bits();
      var i, left, v := WriteWholeBytes(start, val, count);
      if left > 0 {
        LastBits(before, 8 * start, val, count - left, left);
        StorePartial(i, 0, HighestByte(v), left);
      }
    }

    method WriteWholeBytes(start: nat, val: Word, count: nat) returns (i: nat, left: nat, v: Word)
      requires |val| == 64 && count < 64 && 8 * start + count <= 8 * bytes.Length
      modifies bytes
      ensures left < 8 && left <= count && 8 * i + left == 8 * start + count
      ensures v == From(val, count - left)
      ensures Bits() == Splice(old(Bits()), 8 * start, val[..count - left])
    {
      ghost var before := Bits();
      i, left, v := start, count, val;
      assert From(val, 0) == val;
      assert Splice(before, 8 * start, val[..0]) == before;
      while left >= 8
        invariant 0 <= left <= count && 8 * i + left == 8 * start + count
        invariant v == From(val, count - left)
        invariant Bits() == Splice(before, 8 * start, val[..count - left])
      {
        v := StoreNext(i, v, before, 8 * start, val, count - left);
        i := i + 1;
        left := left - 8;
      }
    }

    method StoreNext(i: nat, v: Word, ghost before: seq<bool>, ghost p: nat, ghost val: Word, ghost done: nat)
      returns (rest: Word)
      requires |val| == 64 && done + 8 <= 64 && i < bytes.Length && 8 * i == p + done && p + done + 8 <= |before|
      requires v == From(val, done) && Bits() == Splice(before, p, val[..done])
      modifies bytes
      ensures rest == From(val, done + 8) && Bits() == Splice(before, p, val[..done + 8])
    {
      NextByte(before, p, val, done);
      StoreWhole(i, HighestByte(v));
      rest := Shl(v, 8);
    }

    method StoreWhole(i: nat, b: Octet)
      requires i < bytes.Length
      modifies bytes
      ensures Bits() == Splice(old(Bits()), 8 * i, b)
    {
      SpliceByte(bytes[..], i, 0, b);
      assert bytes[i][..0] + b + bytes[i][8..] == b;
      StoreByte(i, b);
    }

    method Seek(byteOffset: nat, bitOffset: nat) returns (ok: bool)
      modifies this
      ensures ok ==> Valid() && this.byteOffset == byteOffset && this.bitOffset == bitOffset
      ensures !ok ==> this.byteOffset == old(this.byteOffset) && this.bitOffset == old(this.bitOffset)
      ensures ok <==> bitOffset < 8 && byteOffset <= bytes.Length && (byteOffset == bytes.Length ==> bitOffset == 0)
    {
      if byteOffset > bytes.Length || bitOffset > 7 || (byteOffset == bytes.Length && bitOffset > 0) {
        return false;
      }
      this.byteOffset, this.bitOffset := byteOffset, bitOffset;
      ok := true;
    }

    // -------------------------------------------------------------------------------------------
    // Typed reads and writes
    // -------------------------------------------------------------------------------------------

    static method CountBits(val: nat) returns (n: nat)
      ensures n == BitLength(val)
    {
      n := 0;
      var v := val;
      while v != 0
        invariant n + BitLength(v) == BitLength(val)
      {
        n := n + 1;
        v := v / 2;
      }
    }

    /** `WriteBits` of a number. */
    method WriteNumber(v: nat, count: nat) returns (ok: bool)
      requires Valid() && 0 < count <= 64
      modifies this, bytes
      ensures Valid() && Written(ok, old(Bits()), old(Position()), FromNat(v, count))
    {
      FromNatLow(v, 64, count);
      ok := WriteBits(FromNat(v, 64), count);
    }

    /** Either there was room and the code stands at the old position, or nothing has changed. */
    ghost predicate Written(ok: bool, before: seq<bool>, p: nat, w: Word)
      reads this, bytes
    {
      if ok then p + |w| <= |before| && Bits() == Splice(before, p, w) && Position() == p + |w|
      else p + |w| > |before| && Bits() == before && Position() == p
    }

    method WriteNonSymmetric(val: nat, numValues: nat) returns (ok: bool)
      requires Valid() && 2 <= numValues < INT32_LIMIT && val < numValues
      modifies this, bytes
      ensures Valid() && Written(ok, old(Bits()), old(Position()), NonSymmetricCode(val, numValues))
    {
      var count := CountBits(numValues);
      NonSymmetricWidths(numValues);
      ok := WriteTwoLengths(val, count, Power2(count) - numValues);
    }

    method WriteTwoLengths(val: nat, count: nat, minBitsValues: nat) returns (ok: bool)
      requires Valid() && 1 < count <= 64
      modifies this, bytes
      ensures Valid() && Written(ok, old(Bits()), old(Position()), TwoLengthCode(val, count, minBitsValues))
    {
      if val < minBitsValues {
        ok := WriteNumber(val, count - 1);
      } else {
        ok := WriteNumber(val + minBitsValues, count);
      }
    }

    /** Fails for the one value that has no code. */
    method WriteExponentialGolomb(val: nat) returns (ok: bool)
      requires Valid() && val <= UINT32_MAX
      modifies this, bytes
      ensures Valid()
      ensures val < UINT32_MAX ==> Written(ok, old(Bits()), old(Position()), GolombCode(val))
      ensures val == UINT32_MAX ==> !ok && Bits() == old(Bits()) && Position() == old(Position())
    {
      if val == UINT32_MAX {
        return false;
      }
      var n := CountBits(val + 1);
      Power32();
      BitLengthAtMost(val + 1, 32);
      ok := WriteNumber(val + 1, n * 2 - 1);
    }

    method WriteSignedExponentialGolomb(val: int) returns (ok: bool)
      requires Valid() && -(INT32_LIMIT as int) <= val < INT32_LIMIT
      modifies this, bytes
      ensures Valid()
      ensures val > -(INT32_LIMIT as int) ==> Written(ok, old(Bits()), old(Position()), GolombCode(SignedToUnsigned(val)))
      ensures val == -(INT32_LIMIT as int) ==> !ok && Bits() == old(Bits()) && Position() == old(Position())
    {
      if val == 0 {
        ok := WriteExponentialGolomb(0);
      } else if val > 0 {
        ok := WriteExponentialGolomb(val * 2 - 1);
      } else if val == -(INT32_LIMIT as int) {
        ok := false;
      } else {
        ok := WriteExponentialGolomb(-val * 2);
      }
    }

    /** The read did what `expected` says. */
    ghost predicate Did<T>(ok: bool, val: T, expected: Read<T>)
      reads this
    {
      Position() == expected.position && if ok then expected.result == Some(val) else expected.result == None
    }

    /** `ReadBits` as a number. */
    method ReadNumber(count: nat) returns (ok: bool, val: nat)
      requires Valid() && count > 0
      modifies this
      ensures Valid() && Did(ok, val, DecodeRaw(Bits(), old(Position()), count))
    {
      var word;
      ghost var p := Position();
      ok, word := ReadBits(count);
      val := 0;
      if ok {
        ToNatExtend(Bits()[p..p + count], 32 - count);
        val := ToNat(word);
      }
    }

    method ReadNonSymmetric(numValues: nat) returns (ok: bool, val: nat)
      requires Valid() && 2 <= numValues < INT32_LIMIT
      modifies this
      ensures Valid() && Did(ok, val, DecodeNonSymmetric(Bits(), old(Position()), numValues))
      ensures ok ==> val < numValues
    {
      var count := CountBits(numValues);
      BitLengthBounds(numValues);
      NonSymmetricBound(Bits(), Position(), numValues);
      ok, val := ReadTwoLengths(count, Power2(count) - numValues);
    }

    method ReadTwoLengths(count: nat, minBitsValues: nat) returns (ok: bool, val: nat)
      requires Valid() && count > 1
      modifies this
      ensures Valid() && Did(ok, val, DecodeTwoLengths(Bits(), old(Position()), count, minBitsValues))
    {
      ok, val := ReadNumber(count - 1);
      if !ok || val < minBitsValues {
        return;
      }
      var extra;
      ok, extra := ReadNumber(1);
      if ok {
        val := val * 2 + extra - minBitsValues;
      }
    }

    /** The zeros before the first one, or before the end. */
    method SkipZeros() returns (n: nat)
      requires Valid()
      modifies this
      ensures Valid() && n == LeadingZeros(Bits(), old(Position())) && Position() == old(Position()) + n
    {
      ghost var p := Position();
      n := 0;
      while true
        invariant Valid() && Position() == p + n
        invariant LeadingZeros(Bits(), p) == n + LeadingZeros(Bits(), p + n)
        decreases 8 * bytes.Length - Position()
      {
        var ok, peeked := PeekBits(1);
        if !ok { break; }
        ToNatExtend(Bits()[p + n..p + n + 1], 31);
        OneBit(Bits()[p + n..p + n + 1]);
        if ToNat(peeked) != 0 { break; }
        n := n + 1;
        var _ := ConsumeBits(1);
      }
    }

    /** A one and as many bits behind it as there are zeros before it. */
    method ReadBehindZeros() returns (ok: bool, val: nat)
      requires Valid()
      modifies this
      ensures Valid()
      ensures var r := BehindZeros(Bits(), old(Position()));
        if ok then r.result == Some(val) && Position() == r.position else r.result == None
    {
      var zeros := SkipZeros();
      ok, val := false, 0;
      if zeros + 1 <= 32 {
        ok, val := ReadNumber(zeros + 1);
      }
    }

    /** A failed read goes back to where it started. */
    method ReadExponentialGolomb() returns (ok: bool, val: nat)
      requires Valid()
      modifies this
      ensures Valid() && Did(ok, val, DecodeGolomb(Bits(), old(Position())))
    {
      var originalByte, originalBit := byteOffset, bitOffset;
      GolombPositive(Bits(), Position());
      ok, val := ReadBehindZeros();
      if !ok {
        var _ := Seek(originalByte, originalBit);
      } else {
        val := val - 1;
      }
    }

    method ReadSignedExponentialGolomb() returns (ok: bool, val: int)
      requires Valid()
      modifies this
      ensures Valid()
      ensures Position() == DecodeGolomb(Bits(), old(Position())).position
      ensures DecodeGolomb(Bits(), old(Position())).result ==
        if ok then Some(SignedToUnsigned(val)) else None
      ensures ok ==> val == UnsignedToSigned(DecodeGolomb(Bits(), old(Position())).result.value)
    {
      var u;
      val := 0;
      ok, u := ReadExponentialGolomb();
      if ok {
        if u % 2 == 0 {
          val := -((u / 2) as int);
        } else {
          val := (u + 1) / 2;
        }
      }
    }

    // -------------------------------------------------------------------------------------------
    // Sequences of typed values
    // -------------------------------------------------------------------------------------------

    method WriteItem(item: Item) returns (ok: bool)
      requires Valid() && Encodable(item)
      modifies this, bytes
      ensures Valid() && Written(ok, old(Bits()), old(Position()), Code(item))
    {
      match item
      case Raw(value, width) => ok := WriteNumber(value, width);
      case Golomb(value) => ok := WriteExponentialGolomb(value);
      case SignedGolomb(signed) => ok := WriteSignedExponentialGolomb(signed);
      case NonSymmetric(value, numValues) => ok := WriteNonSymmetric(value, numValues);
    }

    method ReadItem(kind: Item) returns (ok: bool, item: Item)
      requires Valid() && Encodable(kind)
      modifies this
      ensures Valid() && Did(ok, item, Decode(Bits(), old(Position()), kind))
    {
      var v;
      match kind
      case Raw(_, width) =>
        ok, v := ReadNumber(width);
        item := Raw(v, width);
      case Golomb(_) =>
        ok, v := ReadExponentialGolomb();
        item := Golomb(v);
      case SignedGolomb(_) =>
        var signed;
        ok, signed := ReadSignedExponentialGolomb();
        item := SignedGolomb(signed);
      case NonSymmetric(_, numValues) =>
        ok, v := ReadNonSymmetric(numValues);
        item := NonSymmetric(v, numValues);
    }

    method WriteNext(items: seq<Item>, k: nat, ghost before: seq<bool>, ghost p: nat) returns (ok: bool)
      requires Valid() && k < |items| && AllEncodable(items) && Written(true, before, p, Codes(items[..k]))
      modifies this, bytes
      ensures Valid()
      ensures ok ==> Written(true, before, p, Codes(items[..k + 1]))
      ensures !ok ==> p + |Codes(items[..k + 1])| > |before|
    {
      assert items[..k + 1] == items[..k] + [items[k]];
      CodesAppend(items[..k], items[k]);
      ok := WriteItem(items[k]);
      if ok {
        SpliceTwice(before, p, Codes(items[..k]), Code(items[k]));
      }
    }

    /** Writes values until one does not fit. */
    method WriteItems(items: seq<Item>) returns (ok: bool)
      requires Valid() && AllEncodable(items)
      modifies this, bytes
      ensures Valid()
      ensures ok <==> old(Position()) + |Codes(items)| <= |old(Bits())|
      ensures ok ==> Written(ok, old(Bits()), old(Position()), Codes(items))
    {
      ghost var before, p := Bits(), Position();
      assert Splice(before, p, []) == before;
      for k := 0 to |items|
        invariant Valid() && Written(true, before, p, Codes(items[..k]))
      {
        ok := WriteNext(items, k, before, p);
        if !ok {
          CodesMonotone(items, k + 1);
          return;
        }
      }
      assert items[..|items|] == items;
      ok := true;
    }

    /** Reads one value after the other until one fails. */
    method ReadItems(kinds: seq<Item>) returns (ok: bool, items: seq<Item>)
      requires Valid() && AllEncodable(kinds)
      modifies this
      ensures Valid() && Did(ok, items, DecodeAll(Bits(), old(Position()), kinds))
      decreases |kinds|
    {
      items := [];
      if kinds == [] {
        return true, [];
      }
      var first;
      ok, first := ReadItem(kinds[0]);
      if ok {
        var rest;
        ok, rest := ReadItems(kinds[1..]);
        items := [first] + rest;
      }
    }

    /** Whatever is written is read back from the same place, and reading ends where writing ended. */
    method WriteThenRead(items: seq<Item>) returns (fits: bool, got: seq<Item>)
      requires Valid() && AllEncodable(items)
      modifies this, bytes
      ensures Valid()
      ensures fits <==> old(Position()) + |Codes(items)| <= |old(Bits())|
      ensures fits ==> got == items && Position() == old(Position()) + |Codes(items)|
    {
      var startByte, startBit := byteOffset, bitOffset;
      ghost var p := Position();
      got := [];
      fits := WriteItems(items);
      if fits {
        var _ := Seek(startByte, startBit);
        assert StandsAt(Bits(), p, Codes(items));
        CodesReadBack(Bits(), p, items);
        var ok;
        ok, got := ReadItems(items);
      }
    }
  }

  lemma OneBit(w: Word)
    requires |w| == 1
    ensures ToNat(w) == if w[0] then 1 else 0
  {
    assert w[..0] == [];
  }

  lemma NonSymmetricBound(bits: seq<bool>, p: nat, n: nat)
    requires p <= |bits| && 2 <= n < INT32_LIMIT
    ensures DecodeNonSymmetric(bits, p, n).result.Some? ==> DecodeNonSymmetric(bits, p, n).result.value < n
    ensures BitLength(n) > 1
  {
    if DecodeNonSymmetric(bits, p, n).result.Some? { NonSymmetricInRange(bits, p, n); }
  }

  /** Shifting a word left and putting new bits in the gap appends the bits. */
  lemma ShiftIn(w: Word, b: Word, width: nat, k: nat)
    requires |b| == k && |w| + k <= width
    ensures Or(Shl(Extend(w, width), k), Extend(b, width)) == Extend(w + b, width)
  {
  }

  lemma PeekWithinByte(all: seq<bool>, byte: Octet, i: nat, o: nat, count: nat)
    requires 8 * i + 8 <= |all| && all[8 * i..8 * i + 8] == byte && o + count < 8
    ensures Extend(HighestBits(LowestBits(byte, 8 - o), o + count), 32)
         == Extend(all[8 * i + o..8 * i + o + count], 32)
  {
    SliceOfSlice(all, 8 * i, 8 * i + 8, o, o + count);
    assert HighestBits(LowestBits(byte, 8 - o), o + count) == Zeros(8 - count) + byte[o..o + count];
  }

  lemma PeekRestOfByte(all: seq<bool>, byte: Octet, i: nat, o: nat)
    requires 8 * i + 8 <= |all| && all[8 * i..8 * i + 8] == byte && o < 8
    ensures Extend(LowestBits(byte, 8 - o), 32) == Extend(all[8 * i + o..8 * i + 8], 32)
  {
    SliceOfSlice(all, 8 * i, 8 * i + 8, o, 8);
    assert byte[o..8] == byte[o..];
  }

  /** The step of the loop, and with fewer than eight bits the step after it. */
  lemma PeekNextBits(all: seq<bool>, byte: Octet, i: nat, p: nat, n: nat)
    requires 8 * i + 8 <= |all| && all[8 * i..8 * i + 8] == byte && p <= 8 * i && n <= 8 && 8 * i - p + n <= 32
    ensures Or(Shl(Extend(all[p..8 * i], 32), n), Extend(HighestBits(byte, n), 32)) == Extend(all[p..8 * i + n], 32)
    ensures n == 8 ==> HighestBits(byte, n) == byte
  {
    assert all[8 * i..8 * i + n] == byte[..n];
    assert all[p..8 * i + n] == all[p..8 * i] + byte[..n];
    ShiftIn(all[p..8 * i], byte[..n], 32, n);
    assert Extend(HighestBits(byte, n), 32) == Extend(byte[..n], 32);
  }
}
