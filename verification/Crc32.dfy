/**
  CRC-32: the table-driven loop against division of polynomials over GF(2).

  A 32-bit word is the sequence of its bits, least significant first: the order in which the checksum
  takes them, so that element 0 of the register is the coefficient of x^31.
 */
module Crc32 {
  import opened Bytes
  import Words

  type Word = w: seq<bool> | |w| == 32 witness Words.Zeros(32)

  /** The `width` low bits of a number. */
  function ToBits(n: nat, width: nat): (b: seq<bool>)
    ensures |b| == width
  {
    if width == 0 then [] else [n % 2 == 1] + ToBits(n / 2, width - 1)
  }

  function ToNat(b: seq<bool>): nat {
    if b == [] then 0 else 2 * ToNat(b[1..]) + (if b[0] then 1 else 0)
  }

  /** Exclusive or, of the low bits where `b` is the shorter. */
  function Xor(a: seq<bool>, b: seq<bool>): (r: seq<bool>)
    requires |b| <= |a|
    ensures |r| == |a|
  {
    seq(|a|, i requires 0 <= i < |a| => if i < |b| then a[i] != b[i] else a[i])
  }

  function Not(a: Word): Word { seq(32, i requires 0 <= i < 32 => !a[i]) }

  function ShiftRight(a: Word, n: nat): Word
    requires n <= 32
  {
    a[n..] + Words.Zeros(n)
  }

  // ---------------------------------------------------------------------------------------------
  // The checksum as a remainder
  // ---------------------------------------------------------------------------------------------

  /** The bits of a hexadecimal digit. */
  function Hex(d: nat): (b: seq<bool>)
    ensures |b| == 4
  {
    [d % 2 == 1, d / 2 % 2 == 1, d / 4 % 2 == 1, d / 8 % 2 == 1]
  }

  /** The generator x^32 + ..., without its leading term: 0xEDB88320. */
  const POLYNOMIAL: Word :=
    Hex(0x0) + Hex(0x2) + Hex(0x3) + Hex(0x8) + Hex(0x8) + Hex(0xB) + Hex(0xD) + Hex(0xE)

  /** Its other terms. */
  lemma GeneratorTerms(k: nat)
    requires k < 32
    ensures POLYNOMIAL[31 - k] <==> k in {26, 23, 22, 16, 12, 11, 10, 8, 7, 5, 4, 2, 1, 0}
  {
    HexDigits();
  }

  lemma HexDigits()
    ensures POLYNOMIAL == [false, false, false, false] + [false, true, false, false] + [true, true, false, false]
      + [false, false, false, true] + [false, false, false, true] + [true, true, false, true] + [true, false, true, true]
      + [false, true, true, true]
  {
  }

  /** The remainder that long division by the generator leaves: the highest term is cancelled, as long
      as there are more than 32. */
  function Remainder(dividend: seq<bool>): (r: Word)
    requires |dividend| >= 32
    decreases |dividend|
  {
    if |dividend| == 32 then dividend
    else Remainder(if dividend[0] then Xor(dividend[1..], POLYNOMIAL) else dividend[1..])
  }

  function Bits(buf: seq<byte>): (b: seq<bool>)
    ensures |b| == 8 * |buf|
  {
    if buf == [] then [] else ToBits(buf[0], 8) + Bits(buf[1..])
  }

  /** The checksum of RFC 1952: the message, 32 zeros behind it, is divided; the start value is added to
      its first 32 terms; both the start value and the remainder are complemented. */
  function Checksum(start: Word, buf: seq<byte>): Word {
    Not(Remainder(Xor(Bits(buf) + Words.Zeros(32), Not(start))))
  }

  // ---------------------------------------------------------------------------------------------
  // The register
  // ---------------------------------------------------------------------------------------------

  function Step(c: Word): Word {
    if c[0] then Xor(POLYNOMIAL, ShiftRight(c, 1)) else ShiftRight(c, 1)
  }

  function Steps(n: nat, c: Word): Word {
    if n == 0 then c else Steps(n - 1, Step(c))
  }

  /** The register after the bits of a message, one at a time. */
  function Serial(c: Word, message: seq<bool>): Word
    decreases |message|
  {
    if message == [] then c else Serial(Step(Xor(c, message[..1])), message[1..])
  }

  lemma StepAt(c: Word, i: nat)
    requires i < 32
    ensures Step(c)[i] == ((i < 31 && c[i + 1]) != (c[0] && POLYNOMIAL[i]))
  {
  }

  /** The register holds the leading terms of the division, with the message not yet taken in. */
  lemma {:induction false} SerialIsRemainder(c: Word, message: seq<bool>)
    ensures Serial(c, message) == Remainder(Xor(message + Words.Zeros(32), c))
    decreases |message|
  {
    var dividend := Xor(message + Words.Zeros(32), c);
    if message == [] {
      assert dividend == c;
    } else {
      var c' := Step(Xor(c, message[..1]));
      var rest := Xor(message[1..] + Words.Zeros(32), c');
      var next := if dividend[0] then Xor(dividend[1..], POLYNOMIAL) else dividend[1..];
      forall i | 0 <= i < |rest| ensures rest[i] == next[i] {
        if i < 32 { StepAt(Xor(c, message[..1]), i); }
      }
      assert rest == next;
      SerialIsRemainder(c', message[1..]);
    }
  }

  lemma StepLinear(x: Word, y: Word)
    ensures Step(Xor(x, y)) == Xor(Step(x), Step(y))
  {
    forall i | 0 <= i < 32 ensures Step(Xor(x, y))[i] == Xor(Step(x), Step(y))[i] {
      StepAt(Xor(x, y), i);
      StepAt(x, i);
      StepAt(y, i);
    }
  }

  lemma {:induction false} StepsLinear(n: nat, x: Word, y: Word)
    ensures Steps(n, Xor(x, y)) == Xor(Steps(n, x), Steps(n, y))
  {
    if n > 0 {
      StepLinear(x, y);
      StepsLinear(n - 1, Step(x), Step(y));
    }
  }

  lemma TopTerm()
    ensures POLYNOMIAL[31]
  {
    GeneratorTerms(0);
  }

  /** The last bit of the result tells whether the generator was added: a step can be undone. */
  lemma StepInjective(x: Word, y: Word)
    requires Step(x) == Step(y)
    ensures x == y
  {
    TopTerm();
    StepAt(x, 31);
    StepAt(y, 31);
    forall i | 0 < i < 32 ensures x[i] == y[i] {
      StepAt(x, i - 1);
      StepAt(y, i - 1);
    }
  }

  lemma {:induction false} StepsInjective(n: nat, x: Word, y: Word)
    requires Steps(n, x) == Steps(n, y)
    ensures x == y
  {
    if n > 0 {
      StepsInjective(n - 1, Step(x), Step(y));
      StepInjective(x, y);
    }
  }

  /** Up to 32 bits may be added to the register at once. */
  lemma {:induction false} SerialAtOnce(c: Word, message: seq<bool>)
    requires |message| <= 32
    ensures Serial(c, message) == Steps(|message|, Xor(c, message))
    decreases |message|
  {
    if message == [] {
      assert Xor(c, message) == c;
    } else {
      var first := Xor(c, message[..1]);
      SerialAtOnce(Step(first), message[1..]);
      var all := Xor(c, message);
      forall i | 0 <= i < 32 ensures Xor(Step(first), message[1..])[i] == Step(all)[i] {
        StepAt(first, i);
        StepAt(all, i);
      }
      assert Xor(Step(first), message[1..]) == Step(all);
    }
  }

  lemma {:induction false} SerialInjective(x: Word, y: Word, message: seq<bool>)
    requires Serial(x, message) == Serial(y, message)
    ensures x == y
    decreases |message|
  {
    if message != [] {
      var x', y' := Xor(x, message[..1]), Xor(y, message[..1]);
      SerialInjective(Step(x'), Step(y'), message[1..]);
      StepInjective(x', y');
      forall i | 0 <= i < 32 ensures x[i] == y[i] {
        assert x'[i] == y'[i];
      }
    }
  }

  lemma {:induction false} SerialAppend(c: Word, a: seq<bool>, b: seq<bool>)
    ensures Serial(c, a + b) == Serial(Serial(c, a), b)
    decreases |a|
  {
    if a == [] {
      assert a + b == b;
    } else {
      assert (a + b)[1..] == a[1..] + b && (a + b)[..1] == a[..1];
      SerialAppend(Step(Xor(c, a[..1])), a[1..], b);
    }
  }

  lemma {:induction false} BitsAppend(a: seq<byte>, b: seq<byte>)
    ensures Bits(a + b) == Bits(a) + Bits(b)
    decreases |a|
  {
    if a == [] {
      assert a + b == b;
    } else {
      assert (a + b)[1..] == a[1..] + b;
      BitsAppend(a[1..], b);
    }
  }

  lemma ChecksumIsSerial(start: Word, buf: seq<byte>)
    ensures Checksum(start, buf) == Not(Serial(Not(start), Bits(buf)))
  {
    SerialIsRemainder(Not(start), Bits(buf));
  }

  lemma NotNot(a: Word)
    ensures Not(Not(a)) == a
  {
  }

  /** Updating by two pieces is updating by their concatenation. */
  lemma ChecksumAppend(start: Word, a: seq<byte>, b: seq<byte>)
    ensures Checksum(Checksum(start, a), b) == Checksum(start, a + b)
  {
    ChecksumIsSerial(start, a);
    ChecksumIsSerial(Checksum(start, a), b);
    ChecksumIsSerial(start, a + b);
    NotNot(Serial(Not(start), Bits(a)));
    BitsAppend(a, b);
    SerialAppend(Not(start), Bits(a), Bits(b));
  }

  lemma {:induction false} ToBitsBack(n: nat, width: nat)
    requires n < Words.Power2(width)
    ensures ToNat(ToBits(n, width)) == n
  {
    if width > 0 {
      ToBitsBack(n / 2, width - 1);
    }
  }

  lemma {:induction false} BitsInjective(a: seq<byte>, b: seq<byte>)
    requires Bits(a) == Bits(b)
    ensures a == b
    decreases |a|
  {
    if a != [] {
      assert Bits(a)[..8] == ToBits(a[0], 8) && Bits(b)[..8] == ToBits(b[0], 8);
      assert Bits(a)[8..] == Bits(a[1..]) && Bits(b)[8..] == Bits(b[1..]);
      assert Words.Power2(8) == 256;
      ToBitsBack(a[0], 8);
      ToBitsBack(b[0], 8);
      BitsInjective(a[1..], b[1..]);
    }
  }

  /** Two messages of one length differ at most in the 32 bits from `k`: the bits that four consecutive
      bytes take, and any others. */
  predicate DifferWithin(a: seq<byte>, b: seq<byte>, k: nat) {
    && |a| == |b|
    && forall i | 0 <= i < |Bits(a)| && (i < k || k + 32 <= i) :: Bits(a)[i] == Bits(b)[i]
  }

  lemma {:induction false} BurstInSerial(c: Word, x: seq<bool>, y: seq<bool>, rest: seq<bool>)
    requires |x| == |y| <= 32
    requires Serial(c, x + rest) == Serial(c, y + rest)
    ensures x == y
  {
    SerialAppend(c, x, rest);
    SerialAppend(c, y, rest);
    SerialInjective(Serial(c, x), Serial(c, y), rest);
    SerialAtOnce(c, x);
    SerialAtOnce(c, y);
    StepsInjective(|x|, Xor(c, x), Xor(c, y));
    forall i | 0 <= i < |x| ensures x[i] == y[i] {
      assert Xor(c, x)[i] == Xor(c, y)[i];
    }
  }

  lemma SerialInParts(c: Word, p: seq<bool>, from: nat, to: nat)
    requires from <= to <= |p|
    ensures Serial(c, p) == Serial(Serial(c, p[..from]), p[from..to] + p[to..])
  {
    assert p == p[..from] + (p[from..to] + p[to..]);
    SerialAppend(c, p[..from], p[from..to] + p[to..]);
  }

  lemma BurstInMessage(c: Word, p: seq<bool>, q: seq<bool>, from: nat, to: nat)
    requires |p| == |q| && from <= to <= |p| && to - from <= 32
    requires forall i | 0 <= i < |p| && (i < from || to <= i) :: p[i] == q[i]
    requires Serial(c, p) == Serial(c, q)
    ensures p == q
  {
    EqualEnds(p, q, from, to);
    SerialInParts(c, p, from, to);
    SerialInParts(c, q, from, to);
    BurstInSerial(Serial(c, p[..from]), p[from..to], q[from..to], p[to..]);
    EqualParts(p, q, from, to);
  }

  /** Every burst of errors up to 32 bits long is detected. */
  lemma BurstDetected(start: Word, a: seq<byte>, b: seq<byte>, k: nat)
    requires DifferWithin(a, b, k)
    ensures Checksum(start, a) == Checksum(start, b) <==> a == b
  {
    if Checksum(start, a) == Checksum(start, b) {
      var p, q := Bits(a), Bits(b);
      var from, to := Min(k, |p|), Min(k + 32, |p|);
      ChecksumIsSerial(start, a);
      ChecksumIsSerial(start, b);
      NotNot(Serial(Not(start), p));
      NotNot(Serial(Not(start), q));
      BurstInMessage(Not(start), p, q, from, to);
      BitsInjective(a, b);
    }
  }

  // ---------------------------------------------------------------------------------------------
  // The table
  // ---------------------------------------------------------------------------------------------

  lemma {:induction false} StepsShift(n: nat, c: Word)
    requires n <= 32 && forall i | 0 <= i < n :: !c[i]
    ensures Steps(n, c) == ShiftRight(c, n)
  {
    if n > 0 {
      StepsShift(n - 1, Step(c));
      assert ShiftRight(Step(c), n - 1) == ShiftRight(c, n);
    } else {
      assert ShiftRight(c, 0) == c;
    }
  }

  /** Eight steps are a table lookup by the low byte and a shift of the rest. */
  lemma EightSteps(c: Word)
    ensures Steps(8, c) == Xor(Steps(8, c[..8] + Words.Zeros(24)), ShiftRight(c, 8))
  {
    var low: Word, high: Word := c[..8] + Words.Zeros(24), Words.Zeros(8) + c[8..];
    assert c == Xor(low, high);
    StepsLinear(8, low, high);
    StepsShift(8, high);
    assert ShiftRight(high, 8) == ShiftRight(c, 8);
  }

  lemma {:induction false} ToNatBack(b: seq<bool>, width: nat)
    requires |b| <= width
    ensures ToBits(ToNat(b), width) == b + Words.Zeros(width - |b|)
    decreases width
  {
    if b == [] {
      if width > 0 {
        ToNatBack(b, width - 1);
        assert [false] + Words.Zeros(width - 1) == Words.Zeros(width);
      }
    } else {
      ToNatBack(b[1..], width - 1);
      assert b == [b[0]] + b[1..];
    }
  }

  lemma {:induction false} ToNatBound(b: seq<bool>)
    ensures ToNat(b) < Words.Power2(|b|)
    decreases |b|
  {
    if b != [] {
      ToNatBound(b[1..]);
    }
  }

  method TableEntry(i: nat) returns (c: Word)
    ensures c == Steps(8, ToBits(i, 32))
  {
    c := ToBits(i, 32);
    for j := 0 to 8
      invariant Steps(8 - j, c) == Steps(8, ToBits(i, 32))
    {
      if c[0] {
        c := Xor(POLYNOMIAL, ShiftRight(c, 1));
      } else {
        c := ShiftRight(c, 1);
      }
    }
  }

  method LoadCrc32Table() returns (table: array<Word>)
    ensures IsTable(table)
  {
    table := new Word[256](_ => Words.Zeros(32));
    for i := 0 to 256
      invariant forall k | 0 <= k < i :: table[k] == Steps(8, ToBits(k, 32))
    {
      var c := TableEntry(i);
      table[i] := c;
    }
  }

  ghost predicate IsTable(table: array<Word>)
    reads table
  {
    table.Length == 256 && forall i | 0 <= i < 256 :: table[i] == Steps(8, ToBits(i, 32))
  }

  method TakeByte(table: array<Word>, c: Word, u: byte) returns (r: Word)
    requires IsTable(table)
    ensures r == Steps(8, Xor(c, ToBits(u, 8)))
  {
    var x: Word := Xor(c, ToBits(u, 8));
    LookupIndex(x);
    EightSteps(x);
    assert ShiftRight(x, 8) == ShiftRight(c, 8);
    r := Xor(table[ToNat(x[..8])], ShiftRight(c, 8));
  }

  method UpdateCrc32(start: Word, buf: seq<byte>) returns (r: Word)
    ensures r == Checksum(start, buf)
  {
    var table := LoadCrc32Table();
    var c := Not(start);
    for i := 0 to |buf|
      invariant IsTable(table)
      invariant c == Serial(Not(start), Bits(buf[..i]))
    {
      ByteTaken(Not(start), buf, i);
      c := TakeByte(table, c, buf[i]);
    }
    assert buf[..|buf|] == buf;
    ChecksumIsSerial(start, buf);
    r := Not(c);
  }

  lemma LookupIndex(x: Word)
    ensures ToNat(x[..8]) < 256 && ToBits(ToNat(x[..8]), 32) == x[..8] + Words.Zeros(24)
  {
    assert Words.Power2(8) == 256;
    ToNatBound(x[..8]);
    ToNatBack(x[..8], 32);
  }

  lemma ByteTaken(c: Word, buf: seq<byte>, i: nat)
    requires i < |buf|
    ensures Serial(c, Bits(buf[..i + 1])) == Steps(8, Xor(Serial(c, Bits(buf[..i])), ToBits(buf[i], 8)))
  {
    assert buf[..i + 1] == buf[..i] + [buf[i]];
    BitsAppend(buf[..i], [buf[i]]);
    assert Bits([buf[i]]) == ToBits(buf[i], 8);
    SerialAppend(c, Bits(buf[..i]), ToBits(buf[i], 8));
    SerialAtOnce(Serial(c, Bits(buf[..i])), ToBits(buf[i], 8));
  }
}

/** The check value by which a CRC is known: its checksum of the digits from 1 to 9. */
module Crc32Check {
  import opened Bytes
  import opened Crc32
  import Words

  // The register in hexadecimal digits, so that it can be computed.

  datatype Digit = Digit(b0: bool, b1: bool, b2: bool, b3: bool)

  /** The least significant digit first. */
  datatype Register = Register(d0: Digit, d1: Digit, d2: Digit, d3: Digit, d4: Digit, d5: Digit, d6: Digit, d7: Digit)

  const H0 := Digit(false, false, false, false)
  const H1 := Digit(true, false, false, false)
  const H2 := Digit(false, true, false, false)
  const H3 := Digit(true, true, false, false)
  const H4 := Digit(false, false, true, false)
  const H5 := Digit(true, false, true, false)
  const H6 := Digit(false, true, true, false)
  const H7 := Digit(true, true, true, false)
  const H8 := Digit(false, false, false, true)
  const H9 := Digit(true, false, false, true)
  const HA := Digit(false, true, false, true)
  const HB := Digit(true, true, false, true)
  const HC := Digit(false, false, true, true)
  const HD := Digit(true, false, true, true)
  const HE := Digit(false, true, true, true)
  const HF := Digit(true, true, true, true)

  function XorDigit(x: Digit, y: Digit): Digit {
    Digit(x.b0 != y.b0, x.b1 != y.b1, x.b2 != y.b2, x.b3 != y.b3)
  }

  function XorRegister(x: Register, y: Register): Register {
    Register(XorDigit(x.d0, y.d0), XorDigit(x.d1, y.d1), XorDigit(x.d2, y.d2), XorDigit(x.d3, y.d3),
             XorDigit(x.d4, y.d4), XorDigit(x.d5, y.d5), XorDigit(x.d6, y.d6), XorDigit(x.d7, y.d7))
  }

  function ShiftDigit(x: Digit, bit: bool): Digit { Digit(x.b1, x.b2, x.b3, bit) }

  function ShiftRegister(x: Register): Register {
    Register(ShiftDigit(x.d0, x.d1.b0), ShiftDigit(x.d1, x.d2.b0), ShiftDigit(x.d2, x.d3.b0), ShiftDigit(x.d3, x.d4.b0),
             ShiftDigit(x.d4, x.d5.b0), ShiftDigit(x.d5, x.d6.b0), ShiftDigit(x.d6, x.d7.b0), ShiftDigit(x.d7, false))
  }

  function StepRegister(c: Register): Register {
    if c.d0.b0 then XorRegister(Register(H0, H2, H3, H8, H8, HB, HD, HE), ShiftRegister(c)) else ShiftRegister(c)
  }

  function StepsRegister(n: nat, c: Register): Register {
    if n == 0 then c else StepsRegister(n - 1, StepRegister(c))
  }

  /** A byte of two digits is taken in. */
  function TakeRegister(c: Register, low: Digit, high: Digit): Register {
    StepsRegister(8, c.(d0 := XorDigit(c.d0, low), d1 := XorDigit(c.d1, high)))
  }

  // The bits of the digits.

  function Four(x: Digit): (b: seq<bool>)
    ensures |b| == 4
  {
    [x.b0, x.b1, x.b2, x.b3]
  }

  function Pair(x: Digit, y: Digit): (b: seq<bool>)
    ensures |b| == 8
  {
    Four(x) + Four(y)
  }

  function Half(x: Digit, y: Digit, z: Digit, w: Digit): (b: seq<bool>)
    ensures |b| == 16 && b[0] == x.b0
  {
    Pair(x, y) + Pair(z, w)
  }

  function Flat(c: Register): (w: Word)
    ensures w[0] == c.d0.b0
  {
    Half(c.d0, c.d1, c.d2, c.d3) + Half(c.d4, c.d5, c.d6, c.d7)
  }

  lemma XorParts(a: seq<bool>, b: seq<bool>, c: seq<bool>, d: seq<bool>)
    requires |a| == |c| && |d| <= |b|
    ensures Xor(a + b, c + d) == Xor(a, c) + Xor(b, d)
  {
  }

  lemma XorFour(x: Digit, y: Digit)
    ensures Xor(Four(x), Four(y)) == Four(XorDigit(x, y))
  {
  }

  lemma XorPairs(x: Digit, y: Digit, x': Digit, y': Digit)
    ensures Xor(Pair(x, y), Pair(x', y')) == Pair(XorDigit(x, x'), XorDigit(y, y'))
  {
    hide Xor, Four, XorDigit;
    XorParts(Four(x), Four(y), Four(x'), Four(y'));
    XorFour(x, x');
    XorFour(y, y');
  }

  lemma XorHalves(x: Digit, y: Digit, z: Digit, w: Digit, x': Digit, y': Digit, z': Digit, w': Digit)
    ensures Xor(Half(x, y, z, w), Half(x', y', z', w')) == Half(XorDigit(x, x'), XorDigit(y, y'), XorDigit(z, z'), XorDigit(w, w'))
  {
    hide Xor, Pair, XorDigit;
    XorParts(Pair(x, y), Pair(z, w), Pair(x', y'), Pair(z', w'));
    XorPairs(x, y, x', y');
    XorPairs(z, w, z', w');
  }

  lemma XorFlat(x: Register, y: Register)
    ensures Flat(XorRegister(x, y)) == Xor(Flat(x), Flat(y))
  {
    hide Xor, Half, XorDigit;
    XorParts(Half(x.d0, x.d1, x.d2, x.d3), Half(x.d4, x.d5, x.d6, x.d7), Half(y.d0, y.d1, y.d2, y.d3), Half(y.d4, y.d5, y.d6, y.d7));
    XorHalves(x.d0, x.d1, x.d2, x.d3, y.d0, y.d1, y.d2, y.d3);
    XorHalves(x.d4, x.d5, x.d6, x.d7, y.d4, y.d5, y.d6, y.d7);
  }

  function ShiftIn(a: seq<bool>, bit: bool): (b: seq<bool>)
    requires a != []
    ensures |b| == |a|
  {
    a[1..] + [bit]
  }

  lemma ShiftParts(a: seq<bool>, b: seq<bool>, bit: bool)
    requires a != [] && b != []
    ensures ShiftIn(a + b, bit) == ShiftIn(a, b[0]) + ShiftIn(b, bit)
  {
  }

  lemma ShiftFour(x: Digit, bit: bool)
    ensures ShiftIn(Four(x), bit) == Four(ShiftDigit(x, bit))
  {
  }

  lemma ShiftPair(x: Digit, y: Digit, bit: bool)
    ensures ShiftIn(Pair(x, y), bit) == Pair(ShiftDigit(x, y.b0), ShiftDigit(y, bit))
  {
    hide ShiftIn, ShiftDigit;
    ShiftParts(Four(x), Four(y), bit);
    ShiftFour(x, y.b0);
    ShiftFour(y, bit);
  }

  lemma ShiftHalf(x: Digit, y: Digit, z: Digit, w: Digit, bit: bool)
    ensures ShiftIn(Half(x, y, z, w), bit) ==
      Half(ShiftDigit(x, y.b0), ShiftDigit(y, z.b0), ShiftDigit(z, w.b0), ShiftDigit(w, bit))
  {
    hide ShiftIn, ShiftDigit;
    ShiftParts(Pair(x, y), Pair(z, w), bit);
    ShiftPair(x, y, z.b0);
    ShiftPair(z, w, bit);
  }

  lemma ShiftFlat(c: Register)
    ensures Flat(ShiftRegister(c)) == ShiftRight(Flat(c), 1)
  {
    hide Half, ShiftDigit;
    ShiftParts(Half(c.d0, c.d1, c.d2, c.d3), Half(c.d4, c.d5, c.d6, c.d7), false);
    ShiftHalf(c.d0, c.d1, c.d2, c.d3, c.d4.b0);
    ShiftHalf(c.d4, c.d5, c.d6, c.d7, false);
    assert ShiftRight(Flat(c), 1) == ShiftIn(Flat(c), false);
  }

  lemma GeneratorFlat()
    ensures Flat(Register(H0, H2, H3, H8, H8, HB, HD, HE)) == POLYNOMIAL
  {
  }

  lemma StepFlat(c: Register)
    ensures Flat(StepRegister(c)) == Step(Flat(c))
  {
    hide XorRegister, ShiftRegister, Flat, Xor, ShiftRight;
    ShiftFlat(c);
    GeneratorFlat();
    if c.d0.b0 { XorFlat(Register(H0, H2, H3, H8, H8, HB, HD, HE), ShiftRegister(c)); }
  }

  lemma {:induction false} StepsFlat(n: nat, c: Register)
    ensures Flat(StepsRegister(n, c)) == Steps(n, Flat(c))
  {
    hide StepRegister, Step, Flat;
    if n > 0 {
      StepFlat(c);
      StepsFlat(n - 1, StepRegister(c));
    }
  }

  lemma XorShorter(a: seq<bool>, b: seq<bool>, c: seq<bool>, d: seq<bool>)
    requires |a| == |d|
    ensures Xor(a + b + c, d) == Xor(a, d) + b + c
  {
  }

  lemma TakeFlat(c: Register, low: Digit, high: Digit)
    ensures Serial(Flat(c), Pair(low, high)) == Flat(TakeRegister(c, low, high))
  {
    hide Step, Steps, StepsRegister, Pair, Serial;
    var first, rest := Pair(c.d0, c.d1), Half(c.d4, c.d5, c.d6, c.d7);
    var added := c.(d0 := XorDigit(c.d0, low), d1 := XorDigit(c.d1, high));
    XorShorter(first, Pair(c.d2, c.d3), rest, Pair(low, high));
    XorPairs(c.d0, c.d1, low, high);
    assert Flat(added) == Xor(Flat(c), Pair(low, high));
    SerialAtOnce(Flat(c), Pair(low, high));
    StepsFlat(8, added);
  }

  // The message.

  const MESSAGE: seq<byte> := [0x31, 0x32, 0x33, 0x34, 0x35, 0x36, 0x37, 0x38, 0x39]

  lemma AsciiBits(d: nat, low: Digit)
    requires Value(low) == d
    ensures ToBits(0x30 + d, 8) == Pair(low, H3)
  {
    hide ToBits, ToNat, Four;
    NatOfPair(low, H3);
    ToNatBack(Pair(low, H3), 8);
  }

  lemma TakeNext(message: seq<byte>, c: Register, k: nat, low: Digit, next: Register)
    requires message == MESSAGE && k < 9 && Value(low) == k + 1 && TakeRegister(c, low, H3) == next
    ensures Serial(Flat(c), Bits(message[k..])) == Serial(Flat(next), Bits(message[k + 1..]))
  {
    hide Serial, Flat, Pair, TakeRegister, ToBits;
    assert message[k] == 0x31 + k && message[k..][1..] == message[k + 1..];
    AsciiBits(k + 1, low);
    SerialAppend(Flat(c), ToBits(message[k], 8), Bits(message[k + 1..]));
    TakeFlat(c, low, H3);
  }

  lemma Take1()
    ensures TakeRegister(Register(HF, HF, HF, HF, HF, HF, HF, HF), H1, H3) == Register(H8, H4, H0, H1, H3, H2, HC, H7)
  {
  }

  lemma Take2()
    ensures TakeRegister(Register(H8, H4, H0, H1, H3, H2, HC, H7), H2, H3) == Register(H2, H3, HB, HB, HC, HA, H0, HB)
  {
  }

  lemma Take3()
    ensures TakeRegister(Register(H2, H3, HB, HB, HC, HA, H0, HB), H3, H3) == Register(HD, H2, HC, H9, H7, HB, H7, H7)
  {
  }

  lemma Take4()
    ensures TakeRegister(Register(HD, H2, HC, H9, H7, HB, H7, H7), H4, H3) == Register(HC, H5, HF, H1, HC, H1, H4, H6)
  {
  }

  lemma Take5()
    ensures TakeRegister(Register(HC, H5, HF, H1, HC, H1, H4, H6), H5, H3) == Register(H3, HE, H5, HC, HA, H0, H4, H3)
  {
  }

  lemma Take6()
    ensures TakeRegister(Register(H3, HE, H5, HC, HA, H0, H4, H3), H6, H3) == Register(HE, H9, HC, H2, HD, H8, H6, HF)
  {
  }

  lemma Take7()
    ensures TakeRegister(Register(HE, H9, HC, H2, HD, H8, H6, HF), H7, H3) == Register(H0, H6, H6, H9, HC, HF, HF, HA)
  {
  }

  lemma Take8()
    ensures TakeRegister(Register(H0, H6, H6, H9, HC, HF, HF, HA), H8, H3) == Register(H0, H5, H5, H2, HF, H1, H5, H6)
  {
  }

  lemma Take9()
    ensures TakeRegister(Register(H0, H5, H5, H2, HF, H1, H5, H6), H9, H3) == Register(H9, HD, H6, HC, HB, H0, H4, H3)
  {
  }

  lemma SerialOfMessage(message: seq<byte>)
    requires message == MESSAGE
    ensures Serial(Flat(Register(HF, HF, HF, HF, HF, HF, HF, HF)), Bits(message)) == Flat(Register(H9, HD, H6, HC, HB, H0, H4, H3))
  {
    hide Serial, Flat, TakeRegister, Bits;
    Take1();
    TakeNext(message, Register(HF, HF, HF, HF, HF, HF, HF, HF), 0, H1, Register(H8, H4, H0, H1, H3, H2, HC, H7));
    Take2();
    TakeNext(message, Register(H8, H4, H0, H1, H3, H2, HC, H7), 1, H2, Register(H2, H3, HB, HB, HC, HA, H0, HB));
    Take3();
    TakeNext(message, Register(H2, H3, HB, HB, HC, HA, H0, HB), 2, H3, Register(HD, H2, HC, H9, H7, HB, H7, H7));
    Take4();
    TakeNext(message, Register(HD, H2, HC, H9, H7, HB, H7, H7), 3, H4, Register(HC, H5, HF, H1, HC, H1, H4, H6));
    Take5();
    TakeNext(message, Register(HC, H5, HF, H1, HC, H1, H4, H6), 4, H5, Register(H3, HE, H5, HC, HA, H0, H4, H3));
    Take6();
    TakeNext(message, Register(H3, HE, H5, HC, HA, H0, H4, H3), 5, H6, Register(HE, H9, HC, H2, HD, H8, H6, HF));
    Take7();
    TakeNext(message, Register(HE, H9, HC, H2, HD, H8, H6, HF), 6, H7, Register(H0, H6, H6, H9, HC, HF, HF, HA));
    Take8();
    TakeNext(message, Register(H0, H6, H6, H9, HC, HF, HF, HA), 7, H8, Register(H0, H5, H5, H2, HF, H1, H5, H6));
    Take9();
    TakeNext(message, Register(H0, H5, H5, H2, HF, H1, H5, H6), 8, H9, Register(H9, HD, H6, HC, HB, H0, H4, H3));
    assert message[0..] == message && message[9..] == [];
    NothingLeft(Register(H9, HD, H6, HC, HB, H0, H4, H3));
  }

  lemma NothingLeft(c: Register)
    ensures Serial(Flat(c), Bits([])) == Flat(c)
  {
  }

  lemma Spread(r: nat, p: nat, n: nat)
    ensures 2 * (r + p * n) == 2 * r + 2 * p * n
  {
  }

  lemma {:induction false} NatOfParts(a: seq<bool>, b: seq<bool>)
    ensures ToNat(a + b) == ToNat(a) + Words.Power2(|a|) * ToNat(b)
    decreases |a|
  {
    if a == [] {
      assert a + b == b;
    } else {
      assert (a + b)[1..] == a[1..] + b;
      NatOfParts(a[1..], b);
      Spread(ToNat(a[1..]), Words.Power2(|a| - 1), ToNat(b));
    }
  }

  function Value(x: Digit): nat {
    (if x.b0 then 1 else 0) + (if x.b1 then 2 else 0) + (if x.b2 then 4 else 0) + (if x.b3 then 8 else 0)
  }

  lemma NatOfFour(x: Digit)
    ensures ToNat(Four(x)) == Value(x)
  {
    var three, two, one := [x.b1, x.b2, x.b3], [x.b2, x.b3], [x.b3];
    assert Four(x)[1..] == three && three[1..] == two && two[1..] == one && one[1..] == [];
    assert ToNat(one) == if x.b3 then 1 else 0;
    assert ToNat(two) == 2 * ToNat(one) + if x.b2 then 1 else 0;
    assert ToNat(three) == 2 * ToNat(two) + if x.b1 then 1 else 0;
  }

  lemma NatOfPair(x: Digit, y: Digit)
    ensures ToNat(Pair(x, y)) == Value(x) + 0x10 * Value(y)
  {
    hide ToNat, Four, Value;
    assert Words.Power2(4) == 16;
    NatOfParts(Four(x), Four(y));
    NatOfFour(x);
    NatOfFour(y);
  }

  lemma NatOfHalf(x: Digit, y: Digit, z: Digit, w: Digit)
    ensures ToNat(Half(x, y, z, w)) == Value(x) + 0x10 * Value(y) + 0x100 * Value(z) + 0x1000 * Value(w)
  {
    hide ToNat, Pair, Value;
    assert Words.Power2(8) == 256;
    NatOfParts(Pair(x, y), Pair(z, w));
    NatOfPair(x, y);
    NatOfPair(z, w);
  }

  lemma NatOfFlat(c: Register)
    ensures ToNat(Flat(c)) ==
      Value(c.d0) + 0x10 * Value(c.d1) + 0x100 * Value(c.d2) + 0x1000 * Value(c.d3)
      + 0x1_0000 * (Value(c.d4) + 0x10 * Value(c.d5) + 0x100 * Value(c.d6) + 0x1000 * Value(c.d7))
  {
    hide ToNat, Half, Value;
    assert Words.Power2(8) == 256;
    assert Words.Power2(16) == 0x1_0000;
    NatOfParts(Half(c.d0, c.d1, c.d2, c.d3), Half(c.d4, c.d5, c.d6, c.d7));
    NatOfHalf(c.d0, c.d1, c.d2, c.d3);
    NatOfHalf(c.d4, c.d5, c.d6, c.d7);
  }

  lemma NotIsXor(a: Word)
    ensures Not(a) == Xor(a, Not(Words.Zeros(32)))
  {
  }

  lemma OnesFlat()
    ensures Flat(Register(HF, HF, HF, HF, HF, HF, HF, HF)) == Not(Words.Zeros(32))
  {
  }

  /** The checksum of the digits from 1 to 9. */
  lemma CheckValue(start: Word, message: seq<byte>)
    requires start == Words.Zeros(32) && message == MESSAGE
    ensures ToNat(Checksum(start, message)) == 0xCBF43926
  {
    hide Serial, Flat, Xor, Not, ToNat, Bits;
    var ones, last := Register(HF, HF, HF, HF, HF, HF, HF, HF), Register(H9, HD, H6, HC, HB, H0, H4, H3);
    var result := Register(H6, H2, H9, H3, H4, HF, HB, HC);
    ChecksumIsSerial(start, message);
    OnesFlat();
    SerialOfMessage(message);
    NotIsXor(Flat(last));
    XorFlat(last, ones);
    assert XorRegister(last, ones) == result;
    NatOfFlat(result);
  }
}
