/** The independently written run encoders of the audit scripts, all proved against `Runs`. */
module RunEncoders {
  import opened Basics
  import opened Masks
  import opened MaximalRuns

  /** `_runs` of the V3 and the V4 audit (the two scripts hold the same loop). */
  method FindRuns(mask: Mask) returns (result: seq<Run>)
    ensures result == Runs(mask)
  {
    result := [];
    var start := 0;
    while start < |mask|
      invariant start <= |mask|
      invariant result + RunsFrom(mask, start) == Runs(mask)
    {
      if !mask[start] {
        start := start + 1;
        continue;
      }
      var end := start + 1;
      while end < |mask| && mask[end]
        invariant start < end <= |mask|
        invariant RunEnd(mask, start + 1) == RunEnd(mask, end)
      {
        end := end + 1;
      }
      assert RunsFrom(mask, start) == [Run(start, end)] + RunsFrom(mask, end);
      result := result + [Run(start, end)];
      start := end;
    }
  }

  /** np.flatnonzero of the first n frames. */
  function FlatNonzero(m: Mask, n: nat): seq<nat>
    requires n <= |m|
  {
    if n == 0 then []
    else if m[n - 1] then FlatNonzero(m, n - 1) + [n - 1]
    else FlatNonzero(m, n - 1)
  }

  /** The indices are exactly the true frames, in increasing order. */
  lemma {:induction false} FlatNonzeroIndices(m: Mask, n: nat)
    requires n <= |m|
    ensures |FlatNonzero(m, n)| == CountIn(m, 0, n)
    ensures forall j, k :: 0 <= j < k < |FlatNonzero(m, n)| ==> FlatNonzero(m, n)[j] < FlatNonzero(m, n)[k]
    ensures forall k :: 0 <= k < |FlatNonzero(m, n)| ==> FlatNonzero(m, n)[k] < n && m[FlatNonzero(m, n)[k]]
    ensures forall i :: 0 <= i < n && m[i] ==> i in FlatNonzero(m, n)
  {
    if n == 0 {
    } else {
      FlatNonzeroIndices(m, n - 1);
      var before, s := FlatNonzero(m, n - 1), FlatNonzero(m, n);
      assert s == if m[n - 1] then before + [n - 1] else before;
      assert forall k :: 0 <= k < |before| ==> s[k] == before[k] < n - 1;
      assert m[n - 1] ==> s[|before|] == n - 1;
    }
  }

  /** A run in the closed form of `_true_runs`. */
  datatype Span = Span(first: int, last: int)

  function Closed(rs: seq<Run>): seq<Span> {
    seq(|rs|, k requires 0 <= k < |rs| => Span(rs[k].start, rs[k].end - 1))
  }

  lemma ClosedAppend(rs: seq<Run>, r: Run)
    ensures Closed(rs + [r]) == Closed(rs) + [Span(r.start, r.end - 1)]
  {
  }

  lemma {:induction false} SkipFalseFrames(mask: Mask, i: nat, j: nat)
    requires i <= j <= |mask| && NoneTrue(mask, i, j)
    ensures RunsFrom(mask, i) == RunsFrom(mask, j)
    decreases j - i
  {
    if j <= i {
    } else {
      SkipFalseFrames(mask, i + 1, j);
    }
  }

  /** No frame before the first true index, between two neighbours, or after the last is true. */
  lemma GapIsFalse(mask: Mask, indices: seq<nat>, k: nat)
    requires indices == FlatNonzero(mask, |mask|) && k <= |indices|
    ensures forall i ::
      0 <= i < |mask| && (0 < k ==> indices[k - 1] < i) && (k < |indices| ==> i < indices[k]) ==> !mask[i]
  {
    FlatNonzeroIndices(mask, |mask|);
    forall i | 0 <= i < |mask| && mask[i]
      ensures (0 < k && i <= indices[k - 1]) || (k < |indices| && indices[k] <= i)
    {
      assert i in indices;
      var j :| 0 <= j < |indices| && indices[j] == i;
    }
  }

  lemma FirstIndex(mask: Mask, indices: seq<nat>)
    requires indices == FlatNonzero(mask, |mask|)
    ensures indices == [] ==> Runs(mask) == []
    ensures indices != [] ==> indices[0] < |mask| && AllTrue(mask, indices[0], indices[0] + 1)
    ensures indices != [] ==> RunsFrom(mask, indices[0]) == Runs(mask)
  {
    FlatNonzeroIndices(mask, |mask|);
    GapIsFalse(mask, indices, 0);
    if indices == [] {
      SkipFalseFrames(mask, 0, |mask|);
    } else {
      assert indices[0] in indices;
      SkipFalseFrames(mask, 0, indices[0]);
    }
  }

  /** Whether the k-th index extends the span that ends at the one before, or starts a new one. */
  lemma NextIndex(mask: Mask, indices: seq<nat>, k: nat, start: nat)
    requires indices == FlatNonzero(mask, |mask|) && 1 <= k <= |indices|
    requires start <= indices[k - 1] < |mask| && AllTrue(mask, start, indices[k - 1] + 1)
    ensures k < |indices| ==> indices[k - 1] < indices[k] < |mask|
    ensures k < |indices| ==>
      AllTrue(mask, if indices[k] == indices[k - 1] + 1 then start else indices[k], indices[k] + 1)
    ensures k < |indices| && indices[k] != indices[k - 1] + 1 ==>
      RunsFrom(mask, start) == [Run(start, indices[k - 1] + 1)] + RunsFrom(mask, indices[k])
    ensures k == |indices| ==> RunsFrom(mask, start) == [Run(start, indices[k - 1] + 1)]
  {
    var end := indices[k - 1] + 1;
    var next := if k < |indices| then indices[k] else |mask|;
    FlatNonzeroIndices(mask, |mask|);
    if k < |indices| {
      assert indices[k] in indices;
    }
    GapIsFalse(mask, indices, k);
    if end < next || k == |indices| {
      RunEndIs(mask, start + 1, end);
      SkipFalseFrames(mask, end, next);
    }
  }

  lemma {:induction false} RunEndIs(mask: Mask, i: nat, e: nat)
    requires i <= e <= |mask| && AllTrue(mask, i, e) && (e == |mask| || !mask[e])
    ensures RunEnd(mask, i) == e
  {
    assert !(RunEnd(mask, i) < e) && !(e < RunEnd(mask, i));
  }

  /** `_true_runs`: the same runs, found from the true indices and reported with inclusive ends. */
  method TrueRuns(mask: Mask) returns (result: seq<Span>)
    ensures result == Closed(Runs(mask))
  {
    var indices := FlatNonzero(mask, |mask|);
    FirstIndex(mask, indices);
    if |indices| == 0 {
      return [];
    }
    result := [];
    var start: nat, previous: nat := indices[0], indices[0];
    ghost var found: seq<Run> := [];
    for position := 1 to |indices|
      invariant start <= previous < |mask| && previous == indices[position - 1]
      invariant AllTrue(mask, start, previous + 1)
      invariant found + RunsFrom(mask, start) == Runs(mask) && result == Closed(found)
    {
      var index := indices[position];
      NextIndex(mask, indices, position, start);
      if index != previous + 1 {
        var r := Run(start, previous + 1);
        ConcatAssociative(found, [r], RunsFrom(mask, index));
        ClosedAppend(found, r);
        found := found + [r];
        result := result + [Span(start, previous)];
        start := index;
      }
      previous := index;
    }
    NextIndex(mask, indices, |indices|, start);
    ClosedAppend(found, Run(start, previous + 1));
    result := result + [Span(start, previous)];
  }

  // The contact-segment split of the Phase 1 audit.

  /** np.where(np.diff(s) != 1)[0] + 1, the positions at which the index list is cut. */
  function Cuts(s: seq<nat>): (cuts: seq<nat>)
    ensures forall j, k :: 0 <= j < k < |cuts| ==> cuts[j] < cuts[k]
    ensures forall k :: 0 <= k < |cuts| ==> 0 < cuts[k] < |s| && s[cuts[k]] != s[cuts[k] - 1] + 1
    ensures forall p :: 0 < p < |s| && s[p] != s[p - 1] + 1 ==> p in cuts
  {
    var gaps: Mask := seq(|s|, p requires 0 <= p < |s| => p > 0 && s[p] != s[p - 1] + 1);
    FlatNonzeroIndices(gaps, |s|);
    var cuts := FlatNonzero(gaps, |s|);
    assert forall k :: 0 <= k < |cuts| ==> cuts[k] in cuts;
    cuts
  }

  function Boundary(s: seq<nat>, k: nat): (p: nat)
    requires k <= |Cuts(s)| + 1
    ensures p <= |s|
  {
    if k == 0 then 0
    else if k == |Cuts(s)| + 1 then |s|
    else Cuts(s)[k - 1]
  }

  /** np.split(s, cuts): one more piece than there are cuts, the empty list giving one empty piece. */
  function PieceLength(s: seq<nat>, k: nat): int
    requires k <= |Cuts(s)|
  {
    Boundary(s, k + 1) - Boundary(s, k)
  }

  function PieceLengths(s: seq<nat>): (lengths: seq<int>)
    ensures |lengths| == |Cuts(s)| + 1 && forall k :: 0 <= k < |lengths| ==> lengths[k] == PieceLength(s, k)
  {
    seq(|Cuts(s)| + 1, k requires 0 <= k < |Cuts(s)| + 1 => PieceLength(s, k))
  }

  function Greatest(lengths: seq<int>): int
    requires lengths != []
  {
    var last := lengths[|lengths| - 1];
    if |lengths| == 1 then last
    else if last <= Greatest(lengths[..|lengths| - 1]) then Greatest(lengths[..|lengths| - 1])
    else last
  }

  lemma {:induction false} GreatestIsBound(lengths: seq<int>) returns (k: nat)
    requires lengths != []
    ensures k < |lengths| && lengths[k] == Greatest(lengths)
    ensures forall j :: 0 <= j < |lengths| ==> lengths[j] <= Greatest(lengths)
  {
    var front, last := lengths[..|lengths| - 1], lengths[|lengths| - 1];
    if |lengths| == 1 {
      k := 0;
    } else {
      k := GreatestIsBound(front);
      assert forall j :: 0 <= j < |front| ==> lengths[j] == front[j];
      if Greatest(front) < last {
        k := |front|;
      }
    }
  }

  /** max(len(segment) for segment in segments); there is always a segment. */
  function LongestSegment(m: Mask): int {
    Greatest(PieceLengths(FlatNonzero(m, |m|)))
  }

  lemma BreakIsBoundary(s: seq<nat>, b: nat) returns (j: nat)
    requires 0 < b < |s| && s[b] != s[b - 1] + 1
    ensures 1 <= j <= |Cuts(s)| && Boundary(s, j) == b
  {
    assert b in Cuts(s);
    var i :| 0 <= i < |Cuts(s)| && Cuts(s)[i] == b;
    j := i + 1;
  }

  lemma BoundariesSorted(s: seq<nat>, j: nat, k: nat)
    requires j <= |Cuts(s)| + 1 && k <= |Cuts(s)|
    ensures j <= k ==> Boundary(s, j) <= Boundary(s, k)
    ensures k < j ==> Boundary(s, k + 1) <= Boundary(s, j)
  {
  }

  lemma {:induction false} NoCutInside(s: seq<nat>, k: nat, a: nat, b: nat)
    requires k <= |Cuts(s)|
    requires Boundary(s, k) <= a <= b < Boundary(s, k + 1)
    ensures b < |s| && s[b] == s[a] + (b - a)
    decreases b
  {
    if b <= a {
    } else {
      NoCutInside(s, k, a, b - 1);
      if s[b] != s[b - 1] + 1 {
        var j := BreakIsBoundary(s, b);
        BoundariesSorted(s, j, k);
      }
    }
  }

  /** Positions lo..hi-1 whose values step by one all lie in the piece of the first of them. */
  lemma SteppingIsOnePiece(s: seq<nat>, lo: nat, hi: nat) returns (k: nat)
    requires lo < hi <= |s|
    requires forall p :: lo < p < hi ==> s[p] == s[p - 1] + 1
    ensures k <= |Cuts(s)| && Boundary(s, k) <= lo && hi <= Boundary(s, k + 1)
  {
    k := |Cuts(s)|;
    while lo < Boundary(s, k)
      invariant k <= |Cuts(s)| && lo < Boundary(s, k + 1)
    {
      k := k - 1;
    }
  }

  lemma SteppingFitsLongest(s: seq<nat>, lo: nat, hi: nat, first: nat)
    requires lo < hi <= |s|
    requires forall p :: lo <= p < hi ==> s[p] == first + (p - lo)
    ensures hi - lo <= Greatest(PieceLengths(s))
  {
    var k := SteppingIsOnePiece(s, lo, hi);
    var longest := GreatestIsBound(PieceLengths(s));
    assert hi - lo <= PieceLengths(s)[k];
  }

  lemma {:induction false} IndicesOfRun(m: Mask, r: Run, a: nat, k: nat)
    requires IsRun(m, r) && k < r.Length()
    requires a < |FlatNonzero(m, |m|)| && FlatNonzero(m, |m|)[a] == r.start
    ensures a + k < |FlatNonzero(m, |m|)| && FlatNonzero(m, |m|)[a + k] == r.start + k
  {
    if k == 0 {
    } else {
      IndicesOfRun(m, r, a, k - 1);
      FlatNonzeroIndices(m, |m|);
      var s := FlatNonzero(m, |m|);
      assert m[r.start + k] && r.start + k in s;
      GapIsFalse(m, s, a + k);
    }
  }

  lemma PieceFrame(m: Mask, s: seq<nat>, k: nat, j: nat)
    requires forall p :: 0 <= p < |s| ==> s[p] < |m| && m[s[p]]
    requires k <= |Cuts(s)| && j < PieceLength(s, k)
    ensures Boundary(s, k) < |s|
    ensures s[Boundary(s, k)] + j < |m| && m[s[Boundary(s, k)] + j]
  {
    var a := Boundary(s, k);
    NoCutInside(s, k, a, a + j);
  }

  lemma PieceIsInterval(m: Mask, s: seq<nat>, k: nat)
    requires forall p :: 0 <= p < |s| ==> s[p] < |m| && m[s[p]]
    requires k <= |Cuts(s)|
    ensures PieceLength(s, k) <= Longest(Runs(m))
  {
    var n := PieceLength(s, k);
    LongestIsMaximalInterval(m);
    if n > 0 {
      PieceFrame(m, s, k, n - 1);
      var lo := s[Boundary(s, k)];
      forall i | lo <= i < lo + n ensures m[i] {
        PieceFrame(m, s, k, i - lo);
      }
      assert AllTrue(m, lo, lo + n);
    }
  }

  lemma IndexPosition(m: Mask, i: nat) returns (a: nat)
    requires i < |m| && m[i]
    ensures a < |FlatNonzero(m, |m|)| && FlatNonzero(m, |m|)[a] == i
  {
    FlatNonzeroIndices(m, |m|);
    assert i in FlatNonzero(m, |m|);
    a :| 0 <= a < |FlatNonzero(m, |m|)| && FlatNonzero(m, |m|)[a] == i;
  }

  lemma RunPositions(m: Mask, r: Run) returns (a: nat)
    requires IsRun(m, r)
    ensures a + r.Length() <= |FlatNonzero(m, |m|)|
    ensures forall p :: a <= p < a + r.Length() ==> FlatNonzero(m, |m|)[p] == r.start + (p - a)
  {
    a := IndexPosition(m, r.start);
    IndicesOfRun(m, r, a, r.end - 1 - r.start);
    forall p | a <= p < a + r.Length() ensures FlatNonzero(m, |m|)[p] == r.start + (p - a) {
      IndicesOfRun(m, r, a, p - a);
    }
  }

  lemma RunIsOnePiece(m: Mask, r: Run)
    requires IsRun(m, r)
    ensures r.Length() <= LongestSegment(m)
  {
    var a := RunPositions(m, r);
    SteppingFitsLongest(FlatNonzero(m, |m|), a, a + r.Length(), r.start);
  }

  /** The longest segment of the split equals the longest run of the mask. */
  lemma LongestSegmentIsLongestRun(m: Mask)
    ensures LongestSegment(m) == Longest(Runs(m))
  {
    var s := FlatNonzero(m, |m|);
    var j := GreatestIsBound(PieceLengths(s));
    FlatNonzeroIndices(m, |m|);
    PieceIsInterval(m, s, j);
    RunsAreRuns(m);
    if Longest(Runs(m)) > 0 {
      var r :| r in Runs(m) && r.Length() == Longest(Runs(m));
      RunIsOnePiece(m, r);
    } else {
      assert 0 <= PieceLengths(s)[0] <= LongestSegment(m);
    }
  }
}
