/**
  `find_marker`: walks the windows of length `n` of the input in order of
  start offset and reports the position just past the first window whose
  bytes are pairwise distinct.
*/
module MarkerFinder {
  import opened Wrappers
  import opened Distinct

  /** The `n` bytes of `input` starting at offset `s` are pairwise distinct. */
  predicate DistinctWindow(input: seq<byte>, n: nat, s: nat)
    requires s + n <= |input|
  {
    NoDuplicates(input[s..s + n])
  }

  /** The first distinct window starting at or after `from`, reported as the
      offset just past its end; `None` when there is none. */
  function MarkerFrom(input: seq<byte>, n: nat, from: nat): Option<nat>
    requires n >= 1
    decreases |input| - from
  {
    if |input| < from + n then None
    else if DistinctWindow(input, n, from) then Some(from + n)
    else MarkerFrom(input, n, from + 1)
  }

  /** The value `find_marker` computes for `input` and window size `n`. */
  function Marker(input: seq<byte>, n: nat): Option<nat>
    requires n >= 1
  {
    MarkerFrom(input, n, 0)
  }

  /** `<[u8; N]>::try_from(window).ok()`: succeeds exactly on slices of length `n`. */
  function TryIntoArray(window: seq<byte>, n: nat): Option<seq<byte>>
  {
    if |window| == n then Some(window) else None
  }

  /** Every window `windows(n)` yields has length `n`, so the conversion to a
      fixed-size array never fails and its default value is never used. */
  lemma WindowConversionSucceeds(input: seq<byte>, n: nat, s: nat)
    requires s + n <= |input|
    ensures TryIntoArray(input[s..s + n], n) == Some(input[s..s + n])
  {
  }

  /** A result of the search from `from` is a distinct window, and no window
      between `from` and it is distinct. */
  lemma {:induction false} MarkerFromSome(input: seq<byte>, n: nat, from: nat)
    requires n >= 1
    requires MarkerFrom(input, n, from).Some?
    ensures var idx := MarkerFrom(input, n, from).value;
      && from + n <= idx <= |input|
      && DistinctWindow(input, n, idx - n)
      && forall s :: from <= s < idx - n ==> !DistinctWindow(input, n, s)
    decreases |input| - from
  {
    if !DistinctWindow(input, n, from) {
      MarkerFromSome(input, n, from + 1);
    }
  }

  /** The search from `from` finds nothing exactly when no window starting at
      or after `from` is distinct. */
  lemma {:induction false} MarkerFromNone(input: seq<byte>, n: nat, from: nat)
    requires n >= 1
    ensures MarkerFrom(input, n, from).None?
        <==> forall s :: from <= s && s + n <= |input| ==> !DistinctWindow(input, n, s)
    decreases |input| - from
  {
    if from + n <= |input| && !DistinctWindow(input, n, from) {
      MarkerFromNone(input, n, from + 1);
    }
  }

  /** `Marker(input, n) == Some(idx)` exactly when the window ending at `idx`
      is distinct and no window starting earlier is. */
  lemma MarkerSomeIff(input: seq<byte>, n: nat, idx: nat)
    requires n >= 1
    ensures Marker(input, n) == Some(idx)
        <==> && n <= idx <= |input|
             && DistinctWindow(input, n, idx - n)
             && forall s: nat :: s < idx - n ==> !DistinctWindow(input, n, s)
  {
    MarkerFromNone(input, n, 0);
    if Marker(input, n).Some? {
      MarkerFromSome(input, n, 0);
    }
  }

  /** `Marker(input, n)` is `None` exactly when no window of length `n` is
      distinct. */
  lemma MarkerNoneIff(input: seq<byte>, n: nat)
    requires n >= 1
    ensures Marker(input, n).None?
        <==> forall s: nat :: s + n <= |input| ==> !DistinctWindow(input, n, s)
  {
    MarkerFromNone(input, n, 0);
  }

  /** An input shorter than the window has no window at all, hence no marker. */
  lemma MarkerShortInput(input: seq<byte>, n: nat)
    requires n >= 1
    requires |input| < n
    ensures Marker(input, n) == None
  {
  }

  /** `find_marker`: `windows(n).enumerate().find(..)`, with each window
      converted to an array and tested by `is_distinct`. */
  method FindMarker(input: seq<byte>, n: nat) returns (r: Option<nat>)
    requires n >= 1
    ensures r == Marker(input, n)
  {
    var windowCount := if n <= |input| then |input| - n + 1 else 0;
    var idx := 0;
    while idx < windowCount
      invariant idx <= windowCount
      invariant MarkerFrom(input, n, idx) == Marker(input, n)
    {
      var window := input[idx..idx + n];
      // `unwrap_or_default()`: a failed conversion counts as not distinct
      var accepted := false;
      match TryIntoArray(window, n) {
        case Some(chunk) =>
          accepted := IsDistinct(chunk);
        case None =>
      }
      if accepted {
        return Some(idx + n);
      }
      idx := idx + 1;
    }
    return None;
  }
}
