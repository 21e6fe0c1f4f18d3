/** IP addresses in network order, and the order between them. */
module IpAddresses {
  import opened Bytes

  type In4 = b: seq<byte> | |b| == 4 witness [0, 0, 0, 0]
  type In6 = b: seq<byte> | |b| == 16 witness [0, 0, 0, 0, 0, 0, 0, 0, 0, 0, 0, 0, 0, 0, 0, 0]

  datatype Ip = Unspec | V4(v4: In4) | V6(v6: In6)

  /** A byte string comes before another in the order of `memcmp` and `std::string`. */
  predicate Before(a: seq<byte>, b: seq<byte>) {
    b != [] && (a == [] || a[0] < b[0] || (a[0] == b[0] && Before(a[1..], b[1..])))
  }

  function Join(high: nat, low: byte): nat { 0x100 * high + low }

  /** The number that octets in network order stand for. */
  function HostOrder(b: seq<byte>): nat {
    if b == [] then 0 else Join(HostOrder(b[..|b| - 1]), b[|b| - 1])
  }

  predicate IpLess(a: Ip, b: Ip) {
    match (a, b)
    case (Unspec, Unspec) => false
    case (Unspec, _) => true
    case (V4(_), V6(_)) => true
    case (V4(x), V4(y)) => HostOrder(x) < HostOrder(y)
    case (V6(x), V6(y)) => Before(x, y)
    case (_, _) => false
  }

  /** 0.0.0.0, :: and the prefix ::ffff:0:0 of mapped addresses. */
  predicate IsAny(a: Ip) {
    match a
    case Unspec => false
    case V4(b) => b == [0, 0, 0, 0]
    case V6(b) =>
      || b == [0, 0, 0, 0, 0, 0, 0, 0, 0, 0, 0, 0, 0, 0, 0, 0]
      || b == [0, 0, 0, 0, 0, 0, 0, 0, 0, 0, 0xFF, 0xFF, 0, 0, 0, 0]
  }

  lemma {:induction false} BeforeTotal(a: seq<byte>, b: seq<byte>)
    ensures Before(a, b) ==> !Before(b, a) && a != b
    ensures !Before(a, b) && !Before(b, a) ==> a == b
    decreases |a|
  {
    if a != [] && b != [] {
      BeforeTotal(a[1..], b[1..]);
      assert a == [a[0]] + a[1..] && b == [b[0]] + b[1..];
    }
  }

  lemma {:induction false} BeforeTransitive(a: seq<byte>, b: seq<byte>, c: seq<byte>)
    requires Before(a, b) && Before(b, c)
    ensures Before(a, c)
    decreases |a|
  {
    if a != [] && a[0] == b[0] == c[0] {
      BeforeTransitive(a[1..], b[1..], c[1..]);
    }
  }

  lemma JoinInjective(high: nat, low: byte, high': nat, low': byte)
    requires Join(high, low) == Join(high', low')
    ensures high == high' && low == low'
  {
  }

  lemma {:induction false} HostOrderInjective(a: seq<byte>, b: seq<byte>)
    requires |a| == |b| && HostOrder(a) == HostOrder(b)
    ensures a == b
    decreases |a|
  {
    if a != [] {
      var n := |a| - 1;
      JoinInjective(HostOrder(a[..n]), a[n], HostOrder(b[..n]), b[n]);
      HostOrderInjective(a[..n], b[..n]);
      assert a == a[..n] + [a[n]] && b == b[..n] + [b[n]];
    }
  }

  lemma IpOrder(a: Ip, b: Ip, c: Ip)
    ensures IpLess(a, b) ==> !IpLess(b, a) && a != b
    ensures !IpLess(a, b) && !IpLess(b, a) ==> a == b
    ensures IpLess(a, b) && IpLess(b, c) ==> IpLess(a, c)
  {
    if a.V4? && b.V4? && HostOrder(a.v4) == HostOrder(b.v4) { HostOrderInjective(a.v4, b.v4); }
    if a.V6? && b.V6? { BeforeTotal(a.v6, b.v6); }
    if a.V6? && b.V6? && c.V6? && Before(a.v6, b.v6) && Before(b.v6, c.v6) {
      BeforeTransitive(a.v6, b.v6, c.v6);
    }
  }

  lemma {:induction false} BeforeDecided(a: seq<byte>, b: seq<byte>, k: nat)
    requires k < |a| && k < |b| && a[..k] == b[..k] && a[k] != b[k]
    ensures Before(a, b) <==> a[k] < b[k]
    decreases k
  {
    if k > 0 {
      assert a[0] == a[..k][0] == b[..k][0] == b[0];
      assert a[1..][..k - 1] == a[..k][1..] == b[..k][1..] == b[1..][..k - 1];
      BeforeDecided(a[1..], b[1..], k - 1);
    }
  }

  lemma JoinOrder(high: nat, low: byte, high': nat, low': byte)
    requires high != high'
    ensures Join(high, low) < Join(high', low') <==> high < high'
  {
  }

  lemma {:induction false} HostOrderDecided(a: seq<byte>, b: seq<byte>, k: nat)
    requires k < |a| == |b| && a[..k] == b[..k] && a[k] != b[k]
    ensures HostOrder(a) < HostOrder(b) <==> a[k] < b[k]
    ensures HostOrder(a) != HostOrder(b)
    decreases |a|
  {
    var n := |a| - 1;
    if k < n {
      assert a[..n][..k] == a[..k] && b[..n][..k] == b[..k];
      HostOrderDecided(a[..n], b[..n], k);
      JoinOrder(HostOrder(a[..n]), a[n], HostOrder(b[..n]), b[n]);
      JoinOrder(HostOrder(b[..n]), b[n], HostOrder(a[..n]), a[n]);
    }
  }

  /** All octets zero, but for the two of the prefix of mapped addresses. */
  lemma AnyOctets(a: Ip)
    ensures IsAny(a) <==>
      && !a.Unspec?
      && (forall i | 0 <= i < |OctetsOf(a)| && i != 10 && i != 11 :: OctetsOf(a)[i] == 0)
      && (a.V6? ==> a.v6[10] == a.v6[11] && (a.v6[10] == 0 || a.v6[10] == 255))
  {
    if !a.Unspec? && forall i | 0 <= i < |OctetsOf(a)| && i != 10 && i != 11 :: OctetsOf(a)[i] == 0 {
      var b := OctetsOf(a);
      var x := if a.V6? then b[10] else 0;
      var z := if a.V4? then [0, 0, 0, 0] else [0, 0, 0, 0, 0, 0, 0, 0, 0, 0, x, x, 0, 0, 0, 0];
      forall i | 0 <= i < |b| && (a.V6? ==> b[11] == x) ensures b[i] == z[i] {
        assert i != 10 && i != 11 ==> OctetsOf(a)[i] == 0;
      }
      assert (a.V6? ==> b[11] == x) ==> b == z;
    }
  }

  function OctetsOf(a: Ip): seq<byte> {
    match a
    case Unspec => []
    case V4(b) => b
    case V6(b) => b
  }

  /** In one family the first octet that differs decides; the families come in the order none, IPv4, IPv6. */
  lemma FirstOctetDecides(a: Ip, b: Ip, k: nat)
    requires |OctetsOf(a)| == |OctetsOf(b)| ==>
      k < |OctetsOf(a)| && OctetsOf(a)[..k] == OctetsOf(b)[..k] && OctetsOf(a)[k] != OctetsOf(b)[k]
    ensures IpLess(a, b) <==>
      if |OctetsOf(a)| != |OctetsOf(b)| then |OctetsOf(a)| < |OctetsOf(b)| else OctetsOf(a)[k] < OctetsOf(b)[k]
  {
    if a.V4? && b.V4? { HostOrderDecided(a.v4, b.v4, k); }
    if a.V6? && b.V6? { BeforeDecided(a.v6, b.v6, k); }
  }
}

/** Network masks: cutting an address down to a prefix, and the length of the prefix a mask stands for. */
module IpMasks {
  import opened Bytes
  import opened IpAddresses
  import opened Words

  // ---------------------------------------------------------------------------------------------
  // Octets and bits
  // ---------------------------------------------------------------------------------------------

  function Bits(b: seq<byte>): (w: Word)
    ensures |w| == 8 * |b|
  {
    if b == [] then [] else FromNat(b[0], 8) + Bits(b[1..])
  }

  function Octet8(w: Word): byte
    requires |w| == 8
  {
    ToNatBound(w);
    assert Power2(8) == 256;
    ToNat(w)
  }

  function Octets(w: Word): (b: seq<byte>)
    requires |w| % 8 == 0
    ensures |b| == |w| / 8
  {
    if w == [] then [] else [Octet8(w[..8])] + Octets(w[8..])
  }

  lemma {:induction false} ToNatBack(w: Word)
    ensures FromNat(ToNat(w), |w|) == w
    decreases |w|
  {
    if w != [] {
      ToNatBack(w[..|w| - 1]);
      assert w == w[..|w| - 1] + [w[|w| - 1]];
    }
  }

  lemma {:induction false} OctetsBack(b: seq<byte>)
    ensures Octets(Bits(b)) == b
    decreases |b|
  {
    if b != [] {
      assert Bits(b)[..8] == FromNat(b[0], 8) && Bits(b)[8..] == Bits(b[1..]);
      assert Power2(8) == 256;
      FromNatBack(b[0], 8);
      OctetsBack(b[1..]);
    }
  }

  lemma {:induction false} BitsBack(w: Word)
    requires |w| % 8 == 0
    ensures Bits(Octets(w)) == w
    decreases |w|
  {
    if w != [] {
      ToNatBack(w[..8]);
      BitsBack(w[8..]);
      assert w == w[..8] + w[8..];
    }
  }

  lemma {:induction false} BitsAppend(a: seq<byte>, b: seq<byte>)
    ensures Bits(a + b) == Bits(a) + Bits(b)
    decreases |a|
  {
    if a == [] {
      assert a + b == b;
    } else {
      assert (a + b)[1..] == a[1..] + b;
      BitsAppend(a[1..], b);
    }
  }

  function IpBits(ip: Ip): (w: Word)
    ensures |w| == if ip.V4? then 32 else if ip.V6? then 128 else 0
  {
    match ip
    case Unspec => []
    case V4(b) => Bits(b)
    case V6(b) => Bits(b)
  }

  /** The address of the same family with other bits. */
  function WithBits(ip: Ip, w: Word): Ip
    requires |w| == |IpBits(ip)|
  {
    match ip
    case Unspec => Unspec
    case V4(_) => V4(Octets(w))
    case V6(_) => V6(Octets(w))
  }

  predicate SameFamily(a: Ip, b: Ip) { a.V4? == b.V4? && a.V6? == b.V6? }

  lemma WithBitsBack(ip: Ip, w: Word)
    requires |w| == |IpBits(ip)|
    ensures IpBits(WithBits(ip, w)) == w && SameFamily(WithBits(ip, w), ip)
    ensures WithBits(ip, IpBits(ip)) == ip
  {
    BitsBack(w);
    match ip
    case Unspec =>
    case V4(b) => OctetsBack(b);
    case V6(b) => OctetsBack(b);
  }

  // ---------------------------------------------------------------------------------------------
  // What truncation and masks mean
  // ---------------------------------------------------------------------------------------------

  function Masked(w: Word, n: nat): (r: Word)
    requires n <= |w|
    ensures |r| == |w|
  {
    w[..n] + Zeros(|w| - n)
  }

  /** The first `length` bits of an address. */
  function Truncated(ip: Ip, length: int): Ip {
    if length < 0 then Unspec else WithBits(ip, Masked(IpBits(ip), Min(length, |IpBits(ip)|)))
  }

  /** Address and mask, bit by bit. */
  function AndMask(ip: Ip, mask: Ip): Ip
    requires SameFamily(ip, mask)
  {
    WithBits(ip, And(IpBits(ip), IpBits(mask)))
  }

  ghost predicate Contiguous(w: Word) {
    exists n: nat :: n <= |w| && w == Masked(Ones(|w|), n)
  }

  /** The position behind the last one. */
  function LastOne(w: Word): (n: nat)
    ensures n <= |w|
  {
    if w == [] then 0 else if w[|w| - 1] then |w| else LastOne(w[..|w| - 1])
  }

  /** The count stops in the first group of 32 that is not all ones. */
  function MaskLengthFrom(w: Word, from: nat): (n: nat)
    requires from <= |w| && (|w| - from) % 32 == 0
    ensures n <= |w| - from
    decreases |w| - from
  {
    if from == |w| then 0
    else
      var group := w[from..from + 32];
      if group == Ones(32) then 32 + MaskLengthFrom(w, from + 32) else LastOne(group)
  }

  function MaskLength(w: Word): (n: nat)
    requires |w| % 32 == 0
    ensures n <= |w|
  {
    MaskLengthFrom(w, 0)
  }

  lemma MaskedTwice(w: Word, n: nat, m: nat)
    requires n <= |w| && m <= |w|
    ensures Masked(Masked(w, n), m) == Masked(w, Min(n, m))
  {
  }

  lemma MaskedAlike(v: Word, w: Word, n: nat)
    requires |v| == |w| && n <= |w|
    ensures Masked(v, n) == Masked(w, n) <==> v[..n] == w[..n]
  {
    assert Masked(v, n)[..n] == v[..n] && Masked(w, n)[..n] == w[..n];
  }

  lemma WithBitsAlike(x: Ip, y: Ip, v: Word, w: Word)
    requires SameFamily(x, y) && |v| == |w| == |IpBits(x)|
    ensures WithBits(x, v) == WithBits(y, w) <==> v == w
  {
    WithBitsBack(x, v);
    WithBitsBack(y, w);
  }

  /** Truncating twice is truncating once. */
  lemma TruncateTwice(ip: Ip, a: int, b: int)
    ensures Truncated(Truncated(ip, a), b) == Truncated(ip, if a < b then a else b)
  {
    if a >= 0 && b >= 0 {
      var w := IpBits(ip);
      var n, m := Min(a, |w|), Min(b, |w|);
      WithBitsBack(ip, Masked(w, n));
      MaskedTwice(w, n, m);
      WithBitsAlike(Truncated(ip, a), ip, Masked(w, Min(n, m)), Masked(w, Min(n, m)));
    }
  }

  /** Two addresses truncate alike exactly when their leading bits agree. */
  lemma TruncateAlike(x: Ip, y: Ip, length: nat)
    requires SameFamily(x, y)
    ensures var n := Min(length, |IpBits(x)|);
      Truncated(x, length) == Truncated(y, length) <==> IpBits(x)[..n] == IpBits(y)[..n]
  {
    var n := Min(length, |IpBits(x)|);
    WithBitsAlike(x, y, Masked(IpBits(x), n), Masked(IpBits(y), n));
    MaskedAlike(IpBits(x), IpBits(y), n);
  }

  lemma {:induction false} LastOneOfMask(w: Word, n: nat)
    requires n <= |w|
    ensures LastOne(Masked(Ones(|w|), n)) == n
    decreases |w|
  {
    var m := Masked(Ones(|w|), n);
    if n < |w| {
      assert m[..|w| - 1] == Masked(Ones(|w| - 1), n);
      LastOneOfMask(w[..|w| - 1], n);
    }
  }

  lemma {:induction false} MaskLengthOfMask(width: nat, n: nat, from: nat)
    requires from <= n <= width && (width - from) % 32 == 0
    ensures MaskLengthFrom(Masked(Ones(width), n), from) == n - from
    decreases width - from
  {
    var m := Masked(Ones(width), n);
    if from < width {
      GroupOfMask(width, n, from);
      if n >= from + 32 {
        MaskLengthOfMask(width, n, from + 32);
      } else {
        LastOneOfMask(Ones(32), n - from);
      }
    }
  }

  lemma GroupOfMask(width: nat, n: nat, from: nat)
    requires from <= n <= width && from + 32 <= width
    ensures var group := Masked(Ones(width), n)[from..from + 32];
      if n >= from + 32 then group == Ones(32) else group == Masked(Ones(32), n - from) && group != Ones(32)
  {
    var m := Masked(Ones(width), n);
    var group, expected := m[from..from + 32], Masked(Ones(32), Min(32, n - from));
    forall t | 0 <= t < 32 ensures group[t] == expected[t] {
      assert group[t] == m[from + t];
    }
    if n < from + 32 { assert !expected[31] && Ones(32)[31]; }
  }

  lemma MaskedIsAnd(w: Word, n: nat)
    requires n <= |w|
    ensures Masked(w, n) == And(w, Masked(Ones(|w|), n))
  {
    forall t | 0 <= t < |w| ensures Masked(w, n)[t] == And(w, Masked(Ones(|w|), n))[t] {
    }
  }

  /** Truncating to the counted length is applying the mask, for every address, exactly when the mask is
      contiguous. */
  lemma MaskingIsTruncation(mask: Ip, ip: Ip)
    requires SameFamily(ip, mask) && Contiguous(IpBits(mask))
    ensures Truncated(ip, MaskLength(IpBits(mask))) == AndMask(ip, mask)
  {
    var m := IpBits(mask);
    var n: nat :| n <= |m| && m == Masked(Ones(|m|), n);
    MaskLengthOfMask(|m|, n, 0);
    MaskedIsAnd(IpBits(ip), n);
  }

  lemma OtherMasksAreNotPrefixes(mask: Ip)
    requires !Contiguous(IpBits(mask))
    ensures var all := WithBits(mask, Ones(|IpBits(mask)|));
      SameFamily(all, mask) && forall n :: Truncated(all, n) != AndMask(all, mask)
  {
    var m := IpBits(mask);
    assert mask.Unspec? ==> m == Masked(Ones(|m|), 0);
    var all := WithBits(mask, Ones(|m|));
    WithBitsBack(mask, Ones(|m|));
    forall n ensures Truncated(all, n) != AndMask(all, mask) {
      assert And(Ones(|m|), m) == m;
      WithBitsBack(all, m);
      if n >= 0 { WithBitsBack(all, Masked(Ones(|m|), Min(n, |m|))); }
    }
  }

  lemma MaskingIffContiguous(mask: Ip)
    ensures Contiguous(IpBits(mask)) <==>
      forall ip | SameFamily(ip, mask) :: Truncated(ip, MaskLength(IpBits(mask))) == AndMask(ip, mask)
  {
    if Contiguous(IpBits(mask)) {
      forall ip | SameFamily(ip, mask)
        ensures Truncated(ip, MaskLength(IpBits(mask))) == AndMask(ip, mask)
      {
        MaskingIsTruncation(mask, ip);
      }
    } else {
      OtherMasksAreNotPrefixes(mask);
    }
  }

  // ---------------------------------------------------------------------------------------------
  // The code
  // ---------------------------------------------------------------------------------------------

  /** The word that four octets in network order stand for, and back. */
  function NetworkToHost32(b: In4): (w: Word)
    ensures |w| == 32
  {
    Bits(b)
  }

  function HostToNetwork32(w: Word): In4
    requires |w| == 32
  {
    Octets(w)
  }

  lemma MaskedWord(b: In4, n: nat)
    requires n <= 32
    ensures HostToNetwork32(And(NetworkToHost32(b), Shl(Ones(32), 32 - n))) == Octets(Masked(Bits(b), n))
    ensures Bits(HostToNetwork32(And(NetworkToHost32(b), Shl(Ones(32), 32 - n)))) == Masked(Bits(b), n)
  {
    assert And(Bits(b), Shl(Ones(32), 32 - n)) == Masked(Bits(b), n);
    BitsBack(Masked(Bits(b), n));
  }

  method TruncateIP(ip: Ip, length: int) returns (r: Ip)
    ensures r == Truncated(ip, length)
  {
    if length < 0 {
      return Unspec;
    }
    if ip.V4? {
      r := TruncateV4(ip.v4, length);
    } else if ip.V6? {
      r := TruncateV6(ip.v6, length);
    } else {
      r := Unspec;
    }
  }

  lemma TruncateNothing(ip: Ip, length: nat)
    requires length >= |IpBits(ip)|
    ensures Truncated(ip, length) == ip
  {
    WithBitsBack(ip, IpBits(ip));
    assert Masked(IpBits(ip), |IpBits(ip)|) == IpBits(ip);
  }

  lemma {:induction false} ZeroOctets(n: nat)
    ensures Bits(seq(n, _ => 0)) == Zeros(8 * n)
  {
    if n > 0 {
      ZeroOctets(n - 1);
      assert seq(n, _ => 0)[1..] == seq(n - 1, _ => 0);
      FromNatHigh(0, 8, 0);
      assert FromNat(0, 8) == Zeros(8);
    }
  }

  lemma TruncateEverything(ip: Ip, any: Ip)
    requires SameFamily(ip, any) && IpBits(any) == Zeros(|IpBits(any)|)
    ensures Truncated(ip, 0) == any
  {
    WithBitsBack(any, IpBits(any));
    assert Masked(IpBits(ip), 0) == IpBits(any);
  }

  method TruncateV4(b: In4, length: nat) returns (r: Ip)
    ensures r == Truncated(V4(b), length)
  {
    if length > 31 {
      TruncateNothing(V4(b), length);
      return V4(b);
    }
    if length == 0 {
      ZeroOctets(4);
      r := V4(seq(4, _ => 0));
      TruncateEverything(V4(b), r);
      return;
    }
    var mask := Shl(Ones(32), 32 - length);
    MaskedWord(b, length);
    r := V4(HostToNetwork32(And(NetworkToHost32(b), mask)));
  }

  /** The first `i` words are truncated and the others are as they were. */
  ghost predicate TruncatedTo(b: In6, v: In6, length: nat, i: nat)
    requires length <= 128 && i <= 4
  {
    Bits(v) == Masked(Bits(b), length)[..32 * i] + Bits(b)[32 * i..]
  }

  function Group(b: In6, i: nat): In4
    requires i < 4
  {
    b[4 * i..4 * i + 4]
  }

  function SetGroup(b: In6, i: nat, g: In4): In6
    requires i < 4
  {
    b[..4 * i] + g + b[4 * i + 4..]
  }

  lemma GroupBits(b: In6, i: nat)
    requires i < 4
    ensures Bits(Group(b, i)) == Bits(b)[32 * i..32 * i + 32]
  {
    AroundGroup(b, i);
  }

  lemma AroundGroup(b: In6, i: nat)
    requires i < 4
    ensures Bits(b)[..32 * i] == Bits(b[..4 * i]) && Bits(b)[32 * i..32 * i + 32] == Bits(Group(b, i))
    ensures Bits(b)[32 * i + 32..] == Bits(b[4 * i + 4..])
  {
    assert b == b[..4 * i] + (Group(b, i) + b[4 * i + 4..]);
    BitsAppend(b[..4 * i], Group(b, i) + b[4 * i + 4..]);
    BitsAppend(Group(b, i), b[4 * i + 4..]);
  }

  lemma SetGroupBits(b: In6, i: nat, g: In4)
    requires i < 4
    ensures Bits(SetGroup(b, i, g)) == Bits(b)[..32 * i] + Bits(g) + Bits(b)[32 * i + 32..]
  {
    AroundGroup(b, i);
    BitsAppend(b[..4 * i] + g, b[4 * i + 4..]);
    BitsAppend(b[..4 * i], g);
  }

  method TruncateV6(b: In6, length: nat) returns (r: Ip)
    ensures r == Truncated(V6(b), length)
  {
    if length > 127 {
      TruncateNothing(V6(b), length);
      return V6(b);
    }
    if length == 0 {
      ZeroOctets(16);
      r := V6(seq(16, _ => 0));
      TruncateEverything(V6(b), r);
      return;
    }
    var position := length / 32;
    var innerLength := 32 - (length - position * 32);
    var v := b;
    for i := 0 to 4
      invariant TruncatedTo(b, v, length, i)
    {
      ghost var was := v;
      v := TruncateGroup(v, i, position, innerLength, length);
      NextGroup(b, was, v, length, i);
    }
    assert Bits(v) == Masked(Bits(b), length);
    OctetsBack(v);
    r := V6(v);
  }

  /** How many of the first `length` bits are in group `i`. */
  function KeptIn(length: nat, i: nat): (n: nat)
    ensures n <= 32
  {
    if length <= 32 * i then 0 else Min(32, length - 32 * i)
  }

  method TruncateGroup(v: In6, i: nat, position: nat, innerLength: nat, ghost length: nat) returns (r: In6)
    requires i < 4 && length < 128 && position == length / 32 && innerLength == 32 - length % 32
    ensures Bits(r) ==
      Bits(v)[..32 * i] + Masked(Bits(v)[32 * i..32 * i + 32], KeptIn(length, i)) + Bits(v)[32 * i + 32..]
  {
    GroupBits(v, i);
    var group := TruncateWord(Group(v, i), i, position, innerLength, length);
    SetGroupBits(v, i, group);
    r := SetGroup(v, i, group);
  }

  method TruncateWord(word: In4, i: nat, position: nat, innerLength: nat, ghost length: nat) returns (r: In4)
    requires i < 4 && length < 128 && position == length / 32 && innerLength == 32 - length % 32
    ensures Bits(r) == Masked(Bits(word), KeptIn(length, i))
  {
    r := word;
    if i == position {
      MaskedWord(word, 32 - innerLength);
      r := HostToNetwork32(And(NetworkToHost32(word), Shl(Ones(32), innerLength)));
    } else if i > position {
      ZeroOctets(4);
      assert Masked(Bits(word), 0) == Zeros(32);
      r := seq(4, _ => 0);
    } else {
      assert Masked(Bits(word), 32) == Bits(word);
    }
  }

  lemma NextGroup(b: In6, was: In6, v: In6, length: nat, i: nat)
    requires length < 128 && i < 4 && TruncatedTo(b, was, length, i)
    requires Bits(v) ==
      Bits(was)[..32 * i] + Masked(Bits(was)[32 * i..32 * i + 32], KeptIn(length, i)) + Bits(was)[32 * i + 32..]
    ensures TruncatedTo(b, v, length, i + 1)
  {
    NextPart(Bits(b), Bits(was), length, 32 * i, 32 * i + 32, KeptIn(length, i));
  }

  /** Truncating one more part of a word. */
  lemma NextPart(w: Word, was: Word, length: nat, from: nat, to: nat, kept: nat)
    requires from <= to <= |w| && length <= |w| && kept <= to - from
    requires kept == if length <= from then 0 else Min(to - from, length - from)
    requires was == Masked(w, length)[..from] + w[from..]
    ensures was[..from] + Masked(was[from..to], kept) + was[to..] == Masked(w, length)[..to] + w[to..]
  {
    var m := Masked(w, length);
    assert was[..from] == m[..from] && was[from..to] == w[from..to] && was[to..] == w[to..];
    assert Masked(w[from..to], kept) == m[from..to];
    assert m[..from] + m[from..to] == m[..to];
  }

  /** `w + 1`, in the width of `w`. */
  function Increment(w: Word): (r: Word)
    ensures |r| == |w|
  {
    if w == [] then []
    else
      var n := |w| - 1;
      if w[n] then Increment(w[..n]) + [false] else w[..n] + [true]
  }

  /** Only the one at index `k`. */
  function Single(width: nat, k: nat): Word
    requires k < width
  {
    Zeros(width)[k := true]
  }

  lemma {:induction false} LastOneOfZeros(w: Word)
    ensures LastOne(w) == 0 <==> w == Zeros(|w|)
    decreases |w|
  {
    if w != [] {
      var n := |w| - 1;
      LastOneOfZeros(w[..n]);
      assert Zeros(|w|)[..n] == Zeros(n);
      assert w == w[..n] + [w[n]];
    }
  }

  /** A word and its negative have the lowest one in common, and nothing else. */
  lemma {:induction false} LowestOne(w: Word)
    requires LastOne(w) > 0
    ensures And(w, Increment(Not(w))) == Single(|w|, LastOne(w) - 1)
    decreases |w|
  {
    var n := |w| - 1;
    assert Not(w)[..n] == Not(w[..n]);
    if !w[n] {
      LowestOne(w[..n]);
      assert And(w, Increment(Not(w))) == And(w[..n], Increment(Not(w[..n]))) + [false];
    }
  }

  /** 0x0000FFFF, 0x00FF00FF, 0x0F0F0F0F, 0x33333333 and 0x55555555: stripes of 16, 8, 4, 2 and 1 ones. */
  function Stripes(s: nat): (w: Word)
    requires s > 0
    ensures |w| == 32
  {
    seq(32, i requires 0 <= i < 32 => (31 - i) % (2 * s) < s)
  }

  lemma SingleInStripes(t: nat, s: nat)
    requires t < 32 && s > 0
    ensures And(Single(32, 31 - t), Stripes(s)) != Zeros(32) <==> t % (2 * s) < s
  {
    var w := And(Single(32, 31 - t), Stripes(s));
    assert w[31 - t] == (t % (2 * s) < s);
    assert forall i | 0 <= i < 32 && i != 31 - t :: !w[i];
    if !w[31 - t] { assert w == Zeros(32); }
  }

  /** The zeros below the lowest one, by halving. */
  method TrailingZeros(word: Word) returns (zeroes: nat)
    requires |word| == 32 && word != Zeros(32)
    ensures zeroes == 32 - LastOne(word)
  {
    hide LastOne, Increment, Not, And;
    LastOneOfZeros(word);
    LowestOne(word);
    ghost var t := 32 - LastOne(word);
    var w := And(word, Increment(Not(word)));
    var z := 32;
    assert w[31 - t];
    if w != Zeros(32) { z := z - 1; }
    var hit := Meets(w, 16, t);
    if hit { z := z - 16; }
    hit := Meets(w, 8, t);
    if hit { z := z - 8; }
    hit := Meets(w, 4, t);
    if hit { z := z - 4; }
    hit := Meets(w, 2, t);
    if hit { z := z - 2; }
    hit := Meets(w, 1, t);
    if hit { z := z - 1; }
    Halving(t);
    zeroes := z;
  }

  method Meets(w: Word, s: nat, ghost t: nat) returns (hit: bool)
    requires t < 32 && s > 0 && w == Single(32, 31 - t)
    ensures hit <==> t % (2 * s) < s
  {
    SingleInStripes(t, s);
    hit := And(w, Stripes(s)) != Zeros(32);
  }

  function Part(t: nat, s: nat): nat
    requires s > 0
  {
    if t % (2 * s) < s then s else 0
  }

  lemma Halving(t: nat)
    requires t < 32
    ensures t == 31 - Part(t, 16) - Part(t, 8) - Part(t, 4) - Part(t, 2) - Part(t, 1)
  {
    assert t % 32 == t;
    assert t == 16 - Part(t, 16) + t % 16;
    assert t % 16 == 8 - Part(t, 8) + t % 8;
    assert t % 8 == 4 - Part(t, 4) + t % 4;
    assert t % 4 == 2 - Part(t, 2) + t % 2;
    assert t % 2 == 1 - Part(t, 1);
  }

  lemma FirstGroup(w: Word)
    requires |w| == 32
    ensures MaskLength(w) == LastOne(w)
  {
    assert w[0..32] == w;
  }

  method CountIPMaskBits(mask: Ip) returns (count: nat)
    ensures count == MaskLength(IpBits(mask))
  {
    var word := Zeros(32);
    var bits := 0;
    match mask {
      case V4(b) =>
        word := NetworkToHost32(b);
        FirstGroup(word);
      case V6(b) =>
        var i := LeadingFullGroups(b);
        if i < 4 {
          word := NetworkToHost32(Group(b, i));
        }
        bits := i * 32;
      case Unspec =>
        return 0;
    }
    LastOneOfZeros(word);
    if word == Zeros(32) {
      return bits;
    }
    var zeroes := TrailingZeros(word);
    count := bits + (32 - zeroes);
  }

  method LeadingFullGroups(b: In6) returns (i: nat)
    ensures i <= 4
    ensures MaskLength(Bits(b)) == 32 * i + if i < 4 then LastOne(NetworkToHost32(Group(b, i))) else 0
  {
    i := 0;
    while i < 4
      invariant i <= 4 && MaskLength(Bits(b)) == 32 * i + MaskLengthFrom(Bits(b), 32 * i)
    {
      GroupBits(b, i);
      if NetworkToHost32(Group(b, i)) != Ones(32) {
        return;
      }
      i := i + 1;
    }
  }
}
