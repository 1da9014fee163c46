/**
  The duplicate test applied to each window: a copy of the window is sorted in
  place, and a fold over the sorted values then checks that every value is
  strictly greater than the one before it.
*/
module Distinct {
  import opened Wrappers

  /** An unsigned 8-bit value (Rust's `u8`). */
  newtype byte = x: int | 0 <= x < 256

  /** No two positions of `s` hold the same value. */
  predicate NoDuplicates(s: seq<byte>)
  {
    forall i, j :: 0 <= i < j < |s| ==> s[i] != s[j]
  }

  predicate Sorted(s: seq<byte>)
  {
    forall i, j :: 0 <= i < j < |s| ==> s[i] <= s[j]
  }

  /** Every element is strictly greater than its predecessor. */
  predicate StrictlyIncreasing(s: seq<byte>)
  {
    forall i :: 0 < i < |s| ==> s[i - 1] < s[i]
  }

  /** Rust's derived ordering `<` on `Option<u8>`: `None` lies below every
      `Some`, and two `Some`s compare by their values. */
  function OptionLess(a: Option<byte>, b: Option<byte>): bool
  {
    match (a, b)
    case (None, Some(_)) => true
    case (Some(x), Some(y)) => x < y
    case (_, None) => false
  }

  /** `s` has no duplicates exactly when no value occurs in it more than once. */
  lemma {:induction false} NoDuplicatesIffMultiplicity(s: seq<byte>)
    ensures NoDuplicates(s) <==> forall x :: multiset(s)[x] <= 1
  {
    if s != [] {
      var t := s[1..];
      NoDuplicatesIffMultiplicity(t);
      assert s == [s[0]] + t;
      assert multiset(s) == multiset{s[0]} + multiset(t);
      if NoDuplicates(s) {
        forall i, j | 0 <= i < j < |t| ensures t[i] != t[j] {
          assert t[i] == s[i + 1] && t[j] == s[j + 1];
        }
      } else {
        var i, j :| 0 <= i < j < |s| && s[i] == s[j];
        if i == 0 {
          assert t[j - 1] == s[0];
          assert multiset(s)[s[0]] >= 2;
        } else {
          assert t[i - 1] == t[j - 1];
          var x :| multiset(t)[x] > 1;
          assert multiset(s)[x] >= multiset(t)[x];
        }
      }
    }
  }

  /** Reordering a sequence does not change whether it holds a duplicate. */
  lemma PermutationPreservesNoDuplicates(s: seq<byte>, t: seq<byte>)
    requires multiset(s) == multiset(t)
    ensures NoDuplicates(s) <==> NoDuplicates(t)
  {
    NoDuplicatesIffMultiplicity(s);
    NoDuplicatesIffMultiplicity(t);
  }

  /** On a sorted sequence, "each value exceeds its predecessor" and "no
      duplicates" coincide. */
  lemma SortedStrictIffNoDuplicates(s: seq<byte>)
    requires Sorted(s)
    ensures StrictlyIncreasing(s) <==> NoDuplicates(s)
  {
    if StrictlyIncreasing(s) {
      forall i, j | 0 <= i < j < |s| ensures s[i] != s[j] {
        assert s[i] < s[i + 1];
        if i + 1 < j {
          assert s[i + 1] <= s[j];
        }
      }
    }
    if NoDuplicates(s) {
      forall i | 0 < i < |s| ensures s[i - 1] < s[i] {
        assert s[i - 1] <= s[i] && s[i - 1] != s[i];
      }
    }
  }

  /** Every prefix of a duplicate-free sequence is duplicate-free. */
  lemma NoDuplicatesPrefix(s: seq<byte>, k: nat)
    requires k <= |s|
    requires NoDuplicates(s)
    ensures NoDuplicates(s[..k])
  {
    forall i, j | 0 <= i < j < k ensures s[..k][i] != s[..k][j] {
      assert s[..k][i] == s[i] && s[..k][j] == s[j];
    }
  }

  method Swap(a: array<byte>, i: nat, j: nat)
    requires i < a.Length && j < a.Length
    modifies a
    ensures a[i] == old(a[j]) && a[j] == old(a[i])
    ensures forall k :: 0 <= k < a.Length && k != i && k != j ==> a[k] == old(a[k])
    ensures multiset(a[..]) == old(multiset(a[..]))
  {
    a[i], a[j] := a[j], a[i];
  }

  /** Stands in for `sort_unstable`: any algorithm that leaves a sorted
      permutation of the array will do; this one is insertion sort. */
  method SortUnstable(a: array<byte>)
    modifies a
    ensures Sorted(a[..])
    ensures multiset(a[..]) == old(multiset(a[..]))
  {
    var i := 0;
    while i < a.Length
      invariant 0 <= i <= a.Length
      invariant forall p, q :: 0 <= p < q < i ==> a[p] <= a[q]
      invariant multiset(a[..]) == old(multiset(a[..]))
    {
      var j := i;
      while 0 < j && a[j] < a[j - 1]
        invariant 0 <= j <= i
        invariant forall p, q :: 0 <= p < q <= i && q != j ==> a[p] <= a[q]
        invariant multiset(a[..]) == old(multiset(a[..]))
      {
        Swap(a, j - 1, j);
        j := j - 1;
      }
      i := i + 1;
    }
  }

  /** `is_distinct`: sorts a copy of `chunk`, then folds over the sorted values
      with the pair (all increasing so far, previous value). */
  method IsDistinct(chunk: seq<byte>) returns (distinct: bool)
    ensures distinct <==> NoDuplicates(chunk)
  {
    var a := new byte[|chunk|](i requires 0 <= i < |chunk| => chunk[i]);
    assert a[..] == chunk;
    SortUnstable(a);
    var ok: bool, prev: Option<byte> := true, None;
    var i := 0;
    while i < a.Length
      invariant 0 <= i <= a.Length
      invariant ok <==> StrictlyIncreasing(a[..i])
      invariant prev == if i == 0 then None else Some(a[i - 1])
    {
      var value := a[i];
      assert a[..i + 1] == a[..i] + [value];
      ok, prev := ok && OptionLess(prev, Some(value)), Some(value);
      i := i + 1;
    }
    assert a[..i] == a[..];
    SortedStrictIffNoDuplicates(a[..]);
    PermutationPreservesNoDuplicates(chunk, a[..]);
    distinct := ok;
  }
}
