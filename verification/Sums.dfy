/** Sums over sequences: what the parts of a system contribute to a shared counter. */
module Sums {

  function Total<T>(parts: seq<T>, f: T -> nat): nat {
    if parts == [] then 0 else f(parts[0]) + Total(parts[1..], f)
  }

  /** When one part changes, the total changes by its contribution. */
  lemma {:induction false} TotalUpdate<T>(parts: seq<T>, i: nat, part: T, f: T -> nat)
    requires i < |parts|
    ensures Total(parts[i := part], f) == Total(parts, f) - f(parts[i]) + f(part)
    ensures f(parts[i]) <= Total(parts, f)
    decreases |parts|
  {
    if i == 0 {
      assert parts[i := part][1..] == parts[1..];
    } else {
      assert parts[i := part][1..] == parts[1..][i - 1 := part];
      TotalUpdate(parts[1..], i - 1, part, f);
    }
  }

  lemma {:induction false} TotalTwo<T>(parts: seq<T>, i: nat, j: nat, f: T -> nat)
    requires i < j < |parts|
    ensures f(parts[i]) + f(parts[j]) <= Total(parts, f)
    decreases |parts|
  {
    if i == 0 {
      TotalUpdate(parts[1..], j - 1, parts[j], f);
    } else {
      TotalTwo(parts[1..], i - 1, j - 1, f);
    }
  }

  lemma {:induction false} TotalWitness<T>(parts: seq<T>, f: T -> nat) returns (i: nat)
    requires Total(parts, f) > 0
    ensures i < |parts| && f(parts[i]) > 0
    decreases |parts|
  {
    if f(parts[0]) > 0 {
      i := 0;
    } else {
      i := TotalWitness(parts[1..], f);
      i := i + 1;
    }
  }

  lemma {:induction false} TotalAppend<T>(parts: seq<T>, part: T, f: T -> nat)
    ensures Total(parts + [part], f) == Total(parts, f) + f(part)
    decreases |parts|
  {
    if parts == [] {
      assert parts + [part] == [part];
    } else {
      assert (parts + [part])[1..] == parts[1..] + [part];
      TotalAppend(parts[1..], part, f);
    }
  }
}
