/** Boolean series over control frames, as the NumPy masks of the contact audits. */
module Masks {

  type Mask = seq<bool>

  predicate AllTrue(m: Mask, lo: int, hi: int)
    requires 0 <= lo && hi <= |m|
  {
    forall i :: lo <= i < hi ==> m[i]
  }

  predicate NoneTrue(m: Mask, lo: int, hi: int)
    requires 0 <= lo && hi <= |m|
  {
    forall i :: lo <= i < hi ==> !m[i]
  }

  predicate Subset(a: Mask, b: Mask) {
    |a| == |b| && forall i :: 0 <= i < |a| && a[i] ==> b[i]
  }

  function And(a: Mask, b: Mask): (r: Mask)
    requires |a| == |b|
    ensures |r| == |a| && forall i :: 0 <= i < |r| ==> r[i] == (a[i] && b[i])
  {
    seq(|a|, i requires 0 <= i < |a| => a[i] && b[i])
  }

  function AndNot(a: Mask, b: Mask): (r: Mask)
    requires |a| == |b|
    ensures |r| == |a| && forall i :: 0 <= i < |r| ==> r[i] == (a[i] && !b[i])
  {
    seq(|a|, i requires 0 <= i < |a| => a[i] && !b[i])
  }

  /** Number of true frames in [lo, hi), as np.count_nonzero of a slice. */
  function CountIn(m: Mask, lo: nat, hi: nat): nat
    requires lo <= hi <= |m|
    decreases hi
  {
    if lo == hi then 0 else CountIn(m, lo, hi - 1) + if m[hi - 1] then 1 else 0
  }

  function Count(m: Mask): nat {
    CountIn(m, 0, |m|)
  }

  lemma {:induction false} CountSplit(m: Mask, lo: nat, mid: nat, hi: nat)
    requires lo <= mid <= hi <= |m|
    ensures CountIn(m, lo, hi) == CountIn(m, lo, mid) + CountIn(m, mid, hi)
    decreases hi
  {
    if hi <= mid {
    } else {
      CountSplit(m, lo, mid, hi - 1);
    }
  }

  lemma {:induction false} CountUniform(m: Mask, lo: nat, hi: nat)
    requires lo <= hi <= |m|
    ensures AllTrue(m, lo, hi) ==> CountIn(m, lo, hi) == hi - lo
    ensures NoneTrue(m, lo, hi) ==> CountIn(m, lo, hi) == 0
    decreases hi
  {
    if hi <= lo {
    } else {
      CountUniform(m, lo, hi - 1);
    }
  }

  /** A frame range split between two masks is counted once by exactly one of them. */
  lemma {:induction false} CountPartition(whole: Mask, a: Mask, b: Mask, lo: nat, hi: nat)
    requires lo <= hi <= |whole| == |a| == |b|
    requires forall i :: lo <= i < hi ==> whole[i] == (a[i] || b[i]) && !(a[i] && b[i])
    ensures CountIn(whole, lo, hi) == CountIn(a, lo, hi) + CountIn(b, lo, hi)
    decreases hi
  {
    if hi <= lo {
    } else {
      CountPartition(whole, a, b, lo, hi - 1);
    }
  }

  /** The count is the number of true frames, as a set. */
  lemma {:induction false} CountIsCardinality(m: Mask, lo: nat, hi: nat)
    requires lo <= hi <= |m|
    ensures CountIn(m, lo, hi) == |set i: nat | lo <= i < hi && m[i]|
    decreases hi
  {
    var here := set i: nat | lo <= i < hi && m[i];
    if hi <= lo {
      assert here == {};
    } else {
      CountIsCardinality(m, lo, hi - 1);
      var before := set i: nat | lo <= i < hi - 1 && m[i];
      assert here == if m[hi - 1] then before + {hi - 1} else before;
    }
  }
}
