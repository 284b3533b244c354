/** Small pieces of the Rust standard library that the search and heuristic code lean on. */
module Prelude {

  datatype Option<+T> = None | Some(value: T)

  /** `std::cmp::Ordering`. */
  datatype Ordering = Less | Equal | Greater {
    /** `Ordering::then_with`: the second comparison only decides ties. */
    function ThenWith(next: Ordering): Ordering {
      if this == Equal then next else this
    }

    function Reverse(): Ordering {
      match this
      case Less => Greater
      case Equal => Equal
      case Greater => Less
    }
  }

  /** `Ord::cmp` on unsigned integers. */
  function Compare(x: nat, y: nat): (o: Ordering)
    ensures o == Less <==> x < y
    ensures o == Equal <==> x == y
    ensures o == Greater <==> x > y
  {
    if x < y then Less else if x == y then Equal else Greater
  }

  /** The indices `lo, lo + 1, ..., hi - 1`, in increasing order. */
  function Range(lo: nat, hi: nat): (r: seq<nat>)
    ensures |r| == if lo <= hi then hi - lo else 0
    ensures forall k :: 0 <= k < |r| ==> r[k] == lo + k
  {
    if lo < hi then seq(hi - lo, k requires 0 <= k < hi - lo => lo + k) else []
  }

  lemma RangeExtend(lo: nat, hi: nat)
    requires lo <= hi
    ensures Range(lo, hi + 1) == Range(lo, hi) + [hi]
  {
  }

  /** Pushing `hi` after `prefix + Range(lo, hi)` gives `prefix + Range(lo, hi + 1)`. */
  lemma RangePush(prefix: seq<nat>, lo: nat, hi: nat)
    requires lo <= hi
    ensures prefix + Range(lo, hi) + [hi] == prefix + Range(lo, hi + 1)
  {
    RangeExtend(lo, hi);
    assert prefix + (Range(lo, hi) + [hi]) == prefix + Range(lo, hi) + [hi];
  }

  /** Appending one element keeps the old sequence as a prefix and puts the element last. */
  lemma AppendLast<T>(s: seq<T>, x: T)
    ensures (s + [x])[..|s|] == s && (s + [x])[|s|] == x
  {
  }

  /** The sequence with position `k` taken out. */
  function Remove<T>(s: seq<T>, k: nat): (r: seq<T>)
    requires k < |s|
    ensures |r| == |s| - 1
    ensures forall j :: 0 <= j < k ==> r[j] == s[j]
    ensures forall j :: k <= j < |r| ==> r[j] == s[j + 1]
  {
    s[..k] + s[k + 1..]
  }
}
