/** Octets and small facts about sequences that several of the models share. */
module Bytes {

  type byte = b: int | 0 <= b < 256

  datatype Option<+T> = None | Some(value: T)

  function Min(a: nat, b: nat): nat { if a < b then a else b }

  function Max(a: nat, b: nat): nat { if a < b then b else a }

  lemma Associative<T>(a: seq<T>, b: seq<T>, c: seq<T>)
    ensures a + (b + c) == a + b + c
  {
  }

  lemma SliceOfSlice<T>(s: seq<T>, from: nat, to: nat, i: nat, j: nat)
    requires from <= to <= |s| && i <= j <= to - from
    ensures s[from..to][i..j] == s[from + i..from + j]
  {
    forall k | 0 <= k < j - i ensures s[from..to][i..j][k] == s[from + i..from + j][k] {
    }
  }

  lemma SliceOfTail<T>(s: seq<T>, from: nat, n: nat)
    requires from + n <= |s|
    ensures s[from..][..n] == s[from..from + n] && s[from..][n..] == s[from + n..]
  {
  }

  /** Sequences are equal if they are equal part by part. */
  lemma EqualParts<T>(s: seq<T>, t: seq<T>, from: nat, to: nat)
    requires |s| == |t| && from <= to <= |s|
    requires s[..from] == t[..from] && s[from..to] == t[from..to] && s[to..] == t[to..]
    ensures s == t
  {
    assert s == s[..from] + s[from..to] + s[to..];
    assert t == t[..from] + t[from..to] + t[to..];
  }

  lemma EqualEnds<T>(s: seq<T>, t: seq<T>, from: nat, to: nat)
    requires |s| == |t| && from <= to <= |s|
    requires forall i | 0 <= i < |s| && (i < from || to <= i) :: s[i] == t[i]
    ensures s[..from] == t[..from] && s[to..] == t[to..]
  {
  }
}
