/** Finite impulse response filters over exact numbers, and the convolution they compute. */
module Convolution {

  /** A sample of the stream; there was silence before it. */
  function Sample(stream: seq<real>, i: int): real {
    if 0 <= i < |stream| then stream[i] else 0.0
  }

  /** The convolution of the stream with the coefficients at time `n`: the sum over `k` of
      `coefficients[k]` times the sample `k` steps back. */
  function Convolve(coefficients: seq<real>, stream: seq<real>, n: int): real
    decreases |coefficients|
  {
    if coefficients == [] then 0.0
    else coefficients[0] * Sample(stream, n) + Convolve(coefficients[1..], stream, n - 1)
  }

  /** The filtered stream. */
  function Filtered(coefficients: seq<real>, stream: seq<real>): (out: seq<real>)
    ensures |out| == |stream|
  {
    seq(|stream|, n => Convolve(coefficients, stream, n))
  }

  function Dot(a: seq<real>, b: seq<real>): real
    requires |a| == |b|
  {
    if a == [] then 0.0
    else Dot(a[..|a| - 1], b[..|a| - 1]) + a[|a| - 1] * b[|a| - 1]
  }

  function Reversed(s: seq<real>): (r: seq<real>)
    ensures |r| == |s|
  {
    if s == [] then [] else Reversed(s[1..]) + [s[0]]
  }

  function Silence(n: nat): seq<real> {
    seq(n, _ => 0.0)
  }

  /** The `m` samples that end at time `n`. */
  function Window(stream: seq<real>, n: int, m: nat): (w: seq<real>)
    ensures |w| == m && forall t | 0 <= t < m :: w[t] == Sample(stream, n - m + 1 + t)
  {
    seq(m, t => Sample(stream, n - m + 1 + t))
  }

  /** The samples a block needs are the last ones before it, followed by the block. */
  lemma WindowPart(stream: seq<real>, block: seq<real>, i: nat, m: nat, j: nat)
    requires i < |block| && j < m
    ensures Window(stream + block, |stream| + i, m)[j] ==
      (if i + j < m - 1 then Window(stream, |stream| - 1, m - 1)[i + j] else block[i + j - (m - 1)])
  {
  }

  /** The samples to keep: old ones that move up by the length of the block, and the end of the block. */
  lemma WindowUpdate(stream: seq<real>, block: seq<real>, m: nat, t: nat)
    requires t < m
    ensures Window(stream + block, |stream| + |block| - 1, m)[t] ==
      (if t + |block| < m then Window(stream, |stream| - 1, m)[t + |block|] else block[t + |block| - m])
  {
  }

  /** What a filter computes for one output: the window against the reversed coefficients. */
  lemma {:induction false} DotConvolves(c: seq<real>, stream: seq<real>, n: int)
    ensures Dot(Window(stream, n, |c|), Reversed(c)) == Convolve(c, stream, n)
    decreases |c|
  {
    if c != [] {
      var w, r := Window(stream, n, |c|), Reversed(c);
      DotConvolves(c[1..], stream, n - 1);
      assert w[..|c| - 1] == Window(stream, n - 1, |c| - 1);
      assert r[..|c| - 1] == Reversed(c[1..]);
      assert w[|c| - 1] == Sample(stream, n) && r[|c| - 1] == c[0];
    }
  }

  /** Zero coefficients in front do not matter, whatever samples they meet. */
  lemma {:induction false} DotPadded(w: seq<real>, padding: nat, r: seq<real>)
    requires |w| == padding + |r|
    ensures Dot(w, Silence(padding) + r) == Dot(w[padding..], r)
    decreases |r|, padding
  {
    var all := Silence(padding) + r;
    if |r| > 0 {
      DotPadded(w[..|w| - 1], padding, r[..|r| - 1]);
      assert all[..|w| - 1] == Silence(padding) + r[..|r| - 1];
      assert w[..|w| - 1][padding..] == w[padding..][..|r| - 1];
    } else if padding > 0 {
      DotPadded(w[..|w| - 1], padding - 1, []);
      assert all[..|w| - 1] == Silence(padding - 1) + [];
    }
  }

  lemma PaddedConvolves(c: seq<real>, padding: nat, stream: seq<real>, n: int)
    ensures Dot(Window(stream, n, padding + |c|), Silence(padding) + Reversed(c)) == Convolve(c, stream, n)
  {
    var w := Window(stream, n, padding + |c|);
    DotPadded(w, padding, Reversed(c));
    assert w[padding..] == Window(stream, n, |c|);
    DotConvolves(c, stream, n);
  }

  /** Later samples do not change earlier outputs. */
  lemma {:induction false} Causal(c: seq<real>, stream: seq<real>, more: seq<real>, n: int)
    requires n < |stream|
    ensures Convolve(c, stream + more, n) == Convolve(c, stream, n)
    decreases |c|
  {
    if c != [] { Causal(c[1..], stream, more, n - 1); }
  }

  /** The outputs of a block, appended to the outputs so far, are the filtered longer stream. */
  lemma FilteredAppend(c: seq<real>, stream: seq<real>, more: seq<real>, out: seq<real>)
    requires |out| == |more|
    requires forall i | 0 <= i < |more| :: out[i] == Convolve(c, stream + more, |stream| + i)
    ensures Filtered(c, stream + more) == Filtered(c, stream) + out
  {
    forall n | 0 <= n < |stream|
      ensures Filtered(c, stream + more)[n] == Filtered(c, stream)[n]
    {
      Causal(c, stream, more, n);
    }
  }

  /** What has been put out does not change when the stream goes on. */
  lemma FilteredPrefix(c: seq<real>, stream: seq<real>, longer: seq<real>)
    requires stream <= longer
    ensures Filtered(c, stream) <= Filtered(c, longer)
  {
    var more := longer[|stream|..];
    assert stream + more == longer;
    forall n | 0 <= n < |stream| ensures Filtered(c, longer)[n] == Filtered(c, stream)[n] {
      Causal(c, stream, more, n);
    }
  }
}

module FirFilter {
  import opened Convolution

  // What the scalar filter does with one array for input and output: it has overwritten each sample
  // before it reads it.

  /** The output after `out`. The current sample reads as zero, and at last as the sum so far; the samples
      of the block before it read as outputs. */
  function NextInPlace(kernel: seq<real>, stream: seq<real>, out: seq<real>): real
    requires kernel != []
  {
    (1.0 + kernel[0]) * Convolve(kernel, stream + (out + [0.0]), |stream| + |out|)
  }

  function InPlace(kernel: seq<real>, stream: seq<real>, n: nat): (out: seq<real>)
    requires kernel != []
    ensures |out| == n
  {
    if n == 0 then []
    else
      var out := InPlace(kernel, stream, n - 1);
      out + [NextInPlace(kernel, stream, out)]
  }

  lemma {:induction false} SilentConvolution(c: seq<real>, stream: seq<real>, n: int)
    requires forall i | 0 <= i <= n && i < |stream| :: stream[i] == 0.0
    ensures Convolve(c, stream, n) == 0.0
    decreases |c|
  {
    if c != [] { SilentConvolution(c[1..], stream, n - 1); }
  }

  lemma {:induction false} InPlaceIsSilent(kernel: seq<real>, n: nat)
    requires kernel != []
    ensures InPlace(kernel, [], n) == Silence(n)
  {
    if n > 0 {
      InPlaceIsSilent(kernel, n - 1);
      var heard := [] + (InPlace(kernel, [], n - 1) + [0.0]);
      SilentConvolution(kernel, heard, n - 1);
    }
  }

  lemma {:induction false} ImpulseResponse(c: seq<real>, tail: nat, m: nat)
    requires m < |c| && m <= tail
    ensures Convolve(c, [1.0] + Silence(tail), m) == c[m]
    decreases |c|
  {
    var impulse := [1.0] + Silence(tail);
    if m == 0 {
      SilentConvolution(c[1..], impulse, -1);
    } else {
      ImpulseResponse(c[1..], tail, m - 1);
    }
  }

  lemma {:induction false} ZeroKernel(n: nat, stream: seq<real>, t: int)
    ensures Convolve(Silence(n), stream, t) == 0.0
  {
    if n > 0 {
      assert Silence(n)[1..] == Silence(n - 1);
      ZeroKernel(n - 1, stream, t - 1);
    }
  }

  lemma SilentKernelInPlace(kernel: seq<real>, block: seq<real>)
    requires kernel != [] && kernel == Silence(|kernel|)
    ensures InPlace(kernel, [], |block|) == Filtered(kernel, block)
  {
    InPlaceIsSilent(kernel, |block|);
    forall n | 0 <= n < |block| ensures Filtered(kernel, block)[n] == Silence(|block|)[n] {
      ZeroKernel(|kernel|, block, n);
    }
  }

  lemma InPlaceIsDeaf(kernel: seq<real>, m: nat) returns (block: seq<real>)
    requires m < |kernel| && kernel[m] != 0.0
    ensures InPlace(kernel, [], |block|) != Filtered(kernel, block)
  {
    block := [1.0] + Silence(m);
    ImpulseResponse(kernel, m, m);
    InPlaceIsSilent(kernel, |block|);
    assert Filtered(kernel, block)[m] != Silence(|block|)[m];
  }

  ghost predicate WorksInPlace(kernel: seq<real>)
    requires kernel != []
  {
    forall block: seq<real> :: InPlace(kernel, [], |block|) == Filtered(kernel, block)
  }

  /** A new scalar filter works in place exactly if it has nothing to compute: it never hears its input. */
  lemma InPlaceIffSilent(kernel: seq<real>)
    requires kernel != []
    ensures WorksInPlace(kernel) <==> kernel == Silence(|kernel|)
  {
    if m :| 0 <= m < |kernel| && kernel[m] != 0.0 {
      var block := InPlaceIsDeaf(kernel, m);
    } else {
      assert kernel == Silence(|kernel|);
      forall block: seq<real> ensures InPlace(kernel, [], |block|) == Filtered(kernel, block) {
        SilentKernelInPlace(kernel, block);
      }
    }
  }

  /** `FIRFilterC`: the state holds the last samples, oldest first. */
  class FirFilterC {
    const coefficientsLength: nat
    const stateLength: nat
    const coefficients: array<real>
    const state: array<real>

    ghost const kernel: seq<real>
    ghost var stream: seq<real>
    ghost var produced: seq<real>

    ghost predicate Ready()
      reads this, coefficients, state
    {
      && coefficients.Length == coefficientsLength == stateLength + 1 == |kernel| && state.Length == stateLength
      && state != coefficients
      && coefficients[..] == Reversed(kernel) && state[..] == Window(stream, |stream| - 1, stateLength)
    }

    ghost predicate Valid()
      reads this, coefficients, state
    {
      Ready() && produced == Filtered(kernel, stream)
    }

    constructor (kernel: seq<real>)
      requires kernel != []
      ensures Valid() && fresh(coefficients) && fresh(state)
      ensures this.kernel == kernel && stream == []
    {
      var n := |kernel|;
      coefficientsLength, stateLength := n, n - 1;
      var c := new real[n];
      for i := 0 to n
        invariant forall k | 0 <= k < i :: c[k] == kernel[n - k - 1]
      {
        c[i] := kernel[n - i - 1];
      }
      ReversedAt(kernel);
      assert c[..] == Reversed(kernel);
      coefficients := c;
      state := new real[n - 1](_ => 0.0);
      this.kernel, stream, produced := kernel, [], [];
      new;
      assert state[..] == Silence(n - 1) == Window([], -1, n - 1);
    }

    /** Filters a block of any length. */
    method Filter(in_: array<real>, length: nat, out: array<real>)
      requires Valid() && 0 < length <= in_.Length && length <= out.Length
      requires out != in_ && out != state && out != coefficients && in_ != state
      modifies out, state, this`stream, this`produced
      ensures Valid()
      ensures stream == old(stream) + in_[..length]
      ensures produced == old(produced) + out[..length]
    {
      ghost var before, after := stream, stream + in_[..length];
      for i := 0 to length
        invariant state[..] == old(state[..]) && unchanged(this)
        invariant forall k | 0 <= k < i :: out[k] == Convolve(kernel, after, |before| + k)
      {
        out[i] := Output(in_, length, i);
      }
      UpdateState(in_, length);
      FilteredAppend(kernel, before, in_[..length], out[..length]);
      stream := after;
      produced := produced + out[..length];
    }

    /** Filters a block with its own array for the output. The samples that the filter then remembers are
        what it has put out. */
    method FilterInPlace(data: array<real>, length: nat)
      requires Ready() && 0 < length <= data.Length && data != state && data != coefficients
      modifies data, state, this`stream
      ensures Ready()
      ensures data[..length] == InPlace(kernel, old(stream), length)
      ensures stream == old(stream) + data[..length]
    {
      for i := 0 to length
        invariant state[..] == old(state[..]) && unchanged(this)
        invariant data[..i] == InPlace(kernel, stream, i)
      {
        ghost var done := data[..i];
        OutputInPlace(data, i);
        assert data[..i] == done;
        assert data[..i + 1] == done + [data[i]];
      }
      UpdateState(data, length);
      stream := stream + data[..length];
    }

    method OutputInPlace(data: array<real>, i: nat)
      requires Ready() && i < data.Length && data != state && data != coefficients
      modifies data
      ensures forall k | 0 <= k < data.Length && k != i :: data[k] == old(data[k])
      ensures data[i] == NextInPlace(kernel, stream, old(data[..i]))
    {
      ghost var done := data[..i];
      data[i] := 0.0;
      var sum, j := SumState(i, done + [0.0]);
      data[i] := data[i] + sum;
      AddBlock(data, i, j, done + [0.0]);
      sum := data[i];
      LastProduct(done, i, sum);
      sum := sum + sum * coefficients[stateLength];
      data[i] := sum;
    }

    /** The products with the block, up to the current sample. */
    method AddBlock(data: array<real>, i: nat, from: nat, ghost block: seq<real>)
      requires Ready() && i < data.Length && data != state && data != coefficients
      requires |block| == i + 1 && (forall k | 0 <= k < i :: block[k] == data[k])
      requires from <= stateLength && from + i >= stateLength && data[i] == Partial(block, i, from)
      modifies data
      ensures forall k | 0 <= k < data.Length && k != i :: data[k] == old(data[k])
      ensures data[i] == Partial(block, i, stateLength)
    {
      var j := from;
      while j < stateLength
        invariant j <= stateLength && j + i >= stateLength
        invariant forall k | 0 <= k < data.Length && k != i :: data[k] == old(data[k])
        invariant data[i] == Partial(block, i, j)
      {
        var x := data[j + i - stateLength];
        PartialStep(block, i, j, x);
        data[i] := data[i] + x * coefficients[j];
        j := j + 1;
      }
    }

    lemma LastProduct(out: seq<real>, i: nat, sum: real)
      requires Ready() && i == |out| && sum == Partial(out + [0.0], i, stateLength)
      ensures sum + sum * coefficients[stateLength] == NextInPlace(kernel, stream, out)
    {
      PartialStep(out + [0.0], i, stateLength, 0.0);
      PartialIsAll(out + [0.0], i);
      ReversedAt(kernel);
      assert coefficients[stateLength] == coefficients[..][stateLength] == kernel[0];
    }

    /** One output: the part of the window in the state, then the part in the block. */
    method Output(in_: array<real>, length: nat, i: nat) returns (sum: real)
      requires Ready() && i < length <= in_.Length
      ensures sum == Convolve(kernel, stream + in_[..length], |stream| + i)
    {
      ghost var block := in_[..length];
      var j;
      sum, j := SumState(i, block);
      while j < coefficientsLength
        invariant j <= coefficientsLength && j + i >= stateLength
        invariant sum == Partial(block, i, j)
      {
        var x := in_[j + i - stateLength];
        PartialStep(block, i, j, x);
        sum := sum + x * coefficients[j];
        j := j + 1;
      }
      PartialIsAll(block, i);
    }

    method SumState(i: nat, ghost block: seq<real>) returns (sum: real, j: nat)
      requires Ready() && i < |block|
      ensures j <= stateLength && j + i >= stateLength && sum == Partial(block, i, j)
    {
      sum, j := 0.0, 0;
      while stateLength > i && j < stateLength - i
        invariant 0 <= j <= stateLength && (j > 0 ==> j + i <= stateLength)
        invariant sum == Partial(block, i, j)
      {
        PartialStep(block, i, j, state[i + j]);
        sum := sum + state[i + j] * coefficients[j];
        j := j + 1;
      }
    }

    /** The first `j` products of output `i` of a block. */
    ghost function Partial(block: seq<real>, i: nat, j: nat): real
      requires coefficientsLength == |kernel| && j <= coefficientsLength
      reads this
    {
      Dot(Window(stream + block, |stream| + i, coefficientsLength)[..j], Reversed(kernel)[..j])
    }

    lemma PartialStep(block: seq<real>, i: nat, j: nat, x: real)
      requires Ready() && i < |block| && j < coefficientsLength
      requires x == if i + j < stateLength then state[i + j] else block[i + j - stateLength]
      ensures Partial(block, i, j + 1) == Partial(block, i, j) + x * coefficients[j]
    {
      WindowPart(stream, block, i, coefficientsLength, j);
      assert i + j < stateLength ==> state[i + j] == state[..][i + j];
      assert coefficients[j] == coefficients[..][j];
      DotStep(Window(stream + block, |stream| + i, coefficientsLength), Reversed(kernel), j, x, coefficients[j]);
    }

    lemma PartialIsAll(block: seq<real>, i: nat)
      requires Ready() && i < |block|
      ensures Partial(block, i, coefficientsLength) == Convolve(kernel, stream + block, |stream| + i)
    {
      var w, r := Window(stream + block, |stream| + i, coefficientsLength), Reversed(kernel);
      assert w[..coefficientsLength] == w && r[..coefficientsLength] == r;
      DotConvolves(kernel, stream + block, |stream| + i);
    }

    /** Keeps the last `stateLength` samples: all from the block if it is long enough, otherwise the
        old ones move to the front. */
    method UpdateState(in_: array<real>, length: nat)
      requires Ready() && length <= in_.Length && in_ != state
      modifies state
      ensures state[..] == Window(stream + in_[..length], |stream| + length - 1, stateLength)
    {
      ghost var block, samples := in_[..length], state[..] + in_[..length];
      ShiftState(in_, length);
      StateUpdated(stream, block, length, samples, state[..], stateLength);
    }

    method ShiftState(in_: array<real>, length: nat)
      requires state.Length == stateLength && length <= in_.Length && in_ != state
      modifies state
      ensures state[..] == (old(state[..]) + in_[..length])[length..] && in_[..length] == old(in_[..length])
    {
      if length >= stateLength {
        forall i | 0 <= i < stateLength { state[i] := in_[length - stateLength + i]; }
      } else {
        forall i | 0 <= i < stateLength - length { state[i] := state[length + i]; }
        forall i | 0 <= i < length { state[stateLength - length + i] := in_[i]; }
      }
    }
  }

  /** What is kept of the last samples and a block: the last samples of the stream with the block. */
  lemma StateUpdated(stream: seq<real>, block: seq<real>, length: nat, samples: seq<real>, kept: seq<real>, m: nat)
    requires |block| == length && samples == Window(stream, |stream| - 1, m) + block && kept == samples[length..]
    ensures kept == Window(stream + block, |stream| + length - 1, m)
  {
    var w := Window(stream + block, |stream| + length - 1, m);
    forall t | 0 <= t < m ensures kept[t] == w[t] {
      WindowUpdate(stream, block, m, t);
    }
  }

  /** A register of four numbers. */
  datatype Lanes = Lanes(a: real, b: real, c: real, d: real)

  datatype Simd = Sse | Neon

  /** The sum of products, lane by lane. */
  function MultiplyAdd(sum: Lanes, x: Lanes, y: Lanes): Lanes {
    Lanes(sum.a + x.a * y.a, sum.b + x.b * y.b, sum.c + x.c * y.c, sum.d + x.d * y.d)
  }

  /** The final sum over the lanes. With SSE the upper half is moved down and added, and then the
      second lane is added to the first; with NEON the halves are added and then adjacent lanes. */
  function SumLanes(simd: Simd, m: Lanes): (sum: real)
    ensures sum == m.a + m.b + m.c + m.d
  {
    match simd
    case Sse =>
      var moved := Lanes(m.c, m.d, m.c, m.d);
      var added := Lanes(moved.a + m.a, moved.b + m.b, moved.c + m.c, moved.d + m.d);
      added.a + added.b
    case Neon =>
      var half := (m.c + m.a, m.d + m.b);
      half.0 + half.1
  }

  function Load(s: seq<real>, i: nat): Lanes
    requires i + 4 <= |s|
  {
    Lanes(s[i], s[i + 1], s[i + 2], s[i + 3])
  }

  /** The coefficients, most recent sample last, behind zeros. */
  method PadAndReverse(kernel: seq<real>, padding: nat) returns (c: array<real>)
    ensures fresh(c) && c[..] == Silence(padding) + Reversed(kernel)
  {
    var n := |kernel|;
    c := new real[padding + n](_ => 0.0);
    ReversedAt(kernel);
    ghost var r := Silence(padding) + Reversed(kernel);
    for i := 0 to n
      invariant forall k | 0 <= k < padding + i :: c[k] == r[k]
    {
      c[i + padding] := kernel[n - i - 1];
    }
  }

  /** `FIRFilterSSE2` and `FIRFilterNEON`: the coefficients are padded with zeros to a multiple of
      four, and the state has room for a block behind the last samples. */
  class FirFilterSimd {
    const simd: Simd
    const maxInputLength: nat
    const coefficientsLength: nat
    const stateLength: nat
    const coefficients: array<real>
    const state: array<real>

    ghost const kernel: seq<real>
    ghost var stream: seq<real>
    ghost var produced: seq<real>

    ghost predicate Ready()
      reads this, coefficients, state
    {
      && |kernel| <= coefficientsLength == stateLength + 1 && coefficientsLength % 4 == 0
      && coefficients.Length == coefficientsLength && state.Length == maxInputLength + stateLength && state != coefficients
      && coefficients[..] == Silence(coefficientsLength - |kernel|) + Reversed(kernel)
      && state[..stateLength] == Window(stream, |stream| - 1, stateLength)
    }

    ghost predicate Valid()
      reads this, coefficients, state
    {
      Ready() && produced == Filtered(kernel, stream)
    }

    constructor (simd: Simd, kernel: seq<real>, maxInputLength: nat)
      requires kernel != []
      ensures Valid() && fresh(coefficients) && fresh(state)
      ensures this.kernel == kernel && stream == [] && this.maxInputLength == maxInputLength
    {
      var rounded := (|kernel| + 3) / 4 * 4;
      this.simd, this.maxInputLength := simd, maxInputLength;
      coefficientsLength, stateLength := rounded, rounded - 1;
      var c := PadAndReverse(kernel, rounded - |kernel|);
      coefficients := c;
      state := new real[maxInputLength + rounded - 1](_ => 0.0);
      this.kernel, stream, produced := kernel, [], [];
      new;
      assert state[..rounded - 1] == Window([], -1, rounded - 1);
    }

    /** `memcpy` of the block behind the state. */
    method LoadBlock(in_: array<real>, length: nat)
      requires length <= in_.Length && length <= maxInputLength && state.Length == maxInputLength + stateLength && in_ != state
      modifies state
      ensures state[..stateLength] == old(state[..stateLength])
      ensures state[..stateLength + length] == old(state[..stateLength]) + in_[..length]
    {
      forall i | 0 <= i < length { state[stateLength + i] := in_[i]; }
    }

    /** `memmove` of the last samples to the front. */
    method KeepLast(length: nat, ghost block: seq<real>)
      requires |block| == length <= maxInputLength && state.Length == maxInputLength + stateLength
      requires state[..stateLength + length] == Window(stream, |stream| - 1, stateLength) + block
      modifies state
      ensures state[..stateLength] == Window(stream + block, |stream| + length - 1, stateLength)
    {
      ghost var samples := state[..stateLength + length];
      forall i | 0 <= i < stateLength { state[i] := state[length + i]; }
      StateUpdated(stream, block, length, samples, state[..stateLength], stateLength);
    }

    /** Filters a block of at most the announced length; it is copied first, so `out` may be `in`. */
    method Filter(in_: array<real>, length: nat, out: array<real>)
      requires Valid() && 0 < length <= in_.Length && length <= out.Length && length <= maxInputLength
      requires out != state && out != coefficients && in_ != state
      modifies out, state, this`stream, this`produced
      ensures Valid()
      ensures stream == old(stream) + old(in_[..length])
      ensures produced == old(produced) + out[..length]
    {
      ghost var block := in_[..length];
      LoadBlock(in_, length);
      Outputs(length, block, out);
      KeepLast(length, block);
      FilteredAppend(kernel, stream, block, out[..length]);
      stream, produced := stream + block, produced + out[..length];
    }

    method Outputs(length: nat, ghost block: seq<real>, out: array<real>)
      requires Ready() && |block| == length <= maxInputLength && length <= out.Length
      requires out != state && out != coefficients
      requires state[..stateLength + length] == Window(stream, |stream| - 1, stateLength) + block
      modifies out
      ensures forall k | 0 <= k < length :: out[k] == Convolve(kernel, stream + block, |stream| + k)
    {
      for i := 0 to length
        invariant forall k | 0 <= k < i :: out[k] == Convolve(kernel, stream + block, |stream| + k)
      {
        out[i] := Output(i, length, block);
      }
    }

    /** Four products at a time. */
    method SumProducts(i: nat) returns (sum: real)
      requires coefficients.Length == coefficientsLength && coefficientsLength % 4 == 0
      requires i + coefficientsLength <= state.Length
      ensures sum == Dot(state[i..i + coefficientsLength], coefficients[..])
    {
      ghost var r := coefficients[..];
      ghost var w := state[i..i + coefficientsLength];
      var m := Lanes(0.0, 0.0, 0.0, 0.0);
      var j := 0;
      while j < coefficientsLength
        invariant 0 <= j <= coefficientsLength && j % 4 == 0
        invariant m.a + m.b + m.c + m.d == Dot(w[..j], r[..j])
      {
        NextFour(j, coefficientsLength);
        FourSteps(w, r, j, m);
        m := MultiplyAdd(m, Load(state[i..], j), Load(coefficients[..], j));
        j := j + 4;
      }
      sum := SumLanes(simd, m);
      assert w[..j] == w && r[..j] == r;
    }

    /** One output. */
    method Output(i: nat, ghost length: nat, ghost block: seq<real>) returns (sum: real)
      requires Ready() && |block| == length && i < length <= maxInputLength
      requires state[..stateLength + length] == Window(stream, |stream| - 1, stateLength) + block
      ensures sum == Convolve(kernel, stream + block, |stream| + i)
    {
      sum := SumProducts(i);
      ghost var w := state[i..i + coefficientsLength];
      SamplesAreWindow(stream, block, state[..stateLength + length], coefficientsLength, i);
      assert state[..stateLength + length][i..i + coefficientsLength] == w;
      PaddedConvolves(kernel, coefficientsLength - |kernel|, stream + block, |stream| + i);
    }
  }

  lemma SamplesAreWindow(stream: seq<real>, block: seq<real>, samples: seq<real>, m: nat, i: nat)
    requires m > 0 && i < |block| && samples == Window(stream, |stream| - 1, m - 1) + block
    ensures samples[i..i + m] == Window(stream + block, |stream| + i, m)
  {
    var w, part := Window(stream + block, |stream| + i, m), samples[i..i + m];
    forall j | 0 <= j < m ensures part[j] == w[j] {
      WindowPart(stream, block, i, m, j);
    }
  }

  lemma NextFour(j: nat, n: nat)
    requires j < n && j % 4 == 0 && n % 4 == 0
    ensures j + 4 <= n && (j + 4) % 4 == 0
  {
  }

  lemma FourSteps(w: seq<real>, r: seq<real>, j: nat, m: Lanes)
    requires |w| == |r| && j + 4 <= |w|
    requires m.a + m.b + m.c + m.d == Dot(w[..j], r[..j])
    ensures var m' := MultiplyAdd(m, Load(w, j), Load(r, j));
      m'.a + m'.b + m'.c + m'.d == Dot(w[..j + 4], r[..j + 4])
  {
    DotStep(w, r, j, w[j], r[j]);
    DotStep(w, r, j + 1, w[j + 1], r[j + 1]);
    DotStep(w, r, j + 2, w[j + 2], r[j + 2]);
    DotStep(w, r, j + 3, w[j + 3], r[j + 3]);
  }

  /** The scalar and the vector filter agree as far as both have come, however differently the stream
      was cut into blocks for them. */
  lemma FiltersAgree(scalar: FirFilterC, vector: FirFilterSimd)
    requires scalar.Valid() && vector.Valid() && scalar.kernel == vector.kernel
    ensures scalar.stream <= vector.stream ==> scalar.produced <= vector.produced
    ensures vector.stream <= scalar.stream ==> vector.produced <= scalar.produced
  {
    if scalar.stream <= vector.stream { FilteredPrefix(scalar.kernel, scalar.stream, vector.stream); }
    if vector.stream <= scalar.stream { FilteredPrefix(scalar.kernel, vector.stream, scalar.stream); }
  }

  lemma DotStep(a: seq<real>, b: seq<real>, j: nat, x: real, y: real)
    requires |a| == |b| && j < |a| && a[j] == x && b[j] == y
    ensures Dot(a[..j + 1], b[..j + 1]) == Dot(a[..j], b[..j]) + x * y
  {
    assert a[..j + 1][..j] == a[..j] && b[..j + 1][..j] == b[..j];
  }

  lemma {:induction false} ReversedAt(s: seq<real>)
    ensures forall i | 0 <= i < |s| :: Reversed(s)[i] == s[|s| - 1 - i]
    decreases |s|
  {
    if s != [] { ReversedAt(s[1..]); }
  }
}
