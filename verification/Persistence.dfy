/** The persistence filter: only runs of enough consecutive frames survive. */
module Persistence {
  import opened Masks
  import opened MaximalRuns
  import opened RunEncoders

  const PERSISTENT_STEPS := 3

  /** The frames of the runs that last at least n frames. */
  function Persistent(m: Mask, n: int): (p: Mask)
    ensures |p| == |m|
  {
    Paint(AtLeast(Runs(m), n), |m|)
  }

  /** `_persistent_mask` and `_persistent`: paint each long run into a zeroed array, in place. */
  method PersistentMask(mask: Mask, minimumSteps: int) returns (result: array<bool>)
    ensures fresh(result) && result[..] == Persistent(mask, minimumSteps)
  {
    result := new bool[|mask|](_ => false);
    var runs := FindRuns(mask);
    RunsAreRuns(mask);
    for k := 0 to |runs|
      invariant forall i :: 0 <= i < |mask| ==>
        (result[i] <==> exists j :: 0 <= j < k && minimumSteps <= runs[j].Length() && runs[j].Covers(i))
    {
      var start, end := runs[k].start, runs[k].end;
      assert runs[k] in runs;
      if end - start >= minimumSteps {
        forall i | start <= i < end {
          result[i] := true;
        }
      }
    }
    PaintedFrames(runs, minimumSteps, result[..]);
  }

  lemma PaintedFrames(runs: seq<Run>, n: int, painted: Mask)
    requires forall i :: 0 <= i < |painted| ==>
      (painted[i] <==> exists j :: 0 <= j < |runs| && n <= runs[j].Length() && runs[j].Covers(i))
    ensures painted == Paint(AtLeast(runs, n), |painted|)
  {
    var expected := Paint(AtLeast(runs, n), |painted|);
    forall i | 0 <= i < |painted| ensures painted[i] == expected[i] {
      if painted[i] {
        var j :| 0 <= j < |runs| && n <= runs[j].Length() && runs[j].Covers(i);
        assert runs[j] in AtLeast(runs, n);
      }
      if expected[i] {
        var r :| r in AtLeast(runs, n) && r.Covers(i);
        var j :| 0 <= j < |runs| && runs[j] == r;
      }
    }
  }

  /** A frame survives iff its own run is long enough. */
  lemma PersistentAt(m: Mask, n: int, i: nat)
    requires i < |m|
    ensures Persistent(m, n)[i] <==> m[i] && n <= RunAt(m, i).Length()
  {
    RunsAreRuns(m);
    if m[i] && n <= RunAt(m, i).Length() {
      assert RunAt(m, i) in AtLeast(Runs(m), n);
    }
    if Persistent(m, n)[i] {
      var r :| r in AtLeast(Runs(m), n) && r.Covers(i);
      CoveringRunIsUnique(m, i, r);
    }
  }

  /** Some window of w consecutive true frames contains frame i. */
  ghost predicate InWindow(m: Mask, w: nat, i: int) {
    exists lo, hi :: 0 <= lo <= i < hi <= |m| && AllTrue(m, lo, hi) && hi - lo == w
  }

  /** Main fact: the filter is the morphological opening by a window of n frames (one frame if n <= 0). */
  lemma PersistentIsOpening(m: Mask, n: int, i: nat)
    requires i < |m|
    ensures Persistent(m, n)[i] <==> InWindow(m, if n < 1 then 1 else n, i)
  {
    var w: nat := if n < 1 then 1 else n;
    PersistentAt(m, n, i);
    if m[i] {
      var r := RunAt(m, i);
      if n <= r.Length() {
        var s := if i + w <= r.end then i else r.end - w;
        assert 0 <= s <= i < s + w <= |m| && AllTrue(m, s, s + w);
      }
    }
    if InWindow(m, w, i) {
      var lo, hi :| 0 <= lo <= i < hi <= |m| && AllTrue(m, lo, hi) && hi - lo == w;
      TrueIntervalInsideRun(m, lo, hi, i);
    }
  }

  /** The runs of the filtered mask are exactly the input runs of length at least n. */
  lemma RunsOfPersistent(m: Mask, n: int)
    ensures Runs(Persistent(m, n)) == AtLeast(Runs(m), n)
  {
    RunsAreRuns(m);
    AtLeastSeparated(Runs(m), n);
    RunsInvertPaint(AtLeast(Runs(m), n), |m|);
  }

  lemma PersistentRun(m: Mask, n: int, r: Run)
    ensures r in Runs(Persistent(m, n)) <==> IsRun(m, r) && n <= r.Length()
  {
    RunsOfPersistent(m, n);
    RunsAreRuns(m);
  }

  lemma PersistentSubset(m: Mask, n: int)
    ensures Subset(Persistent(m, n), m)
  {
    forall i | 0 <= i < |m| && Persistent(m, n)[i] ensures m[i] {
      PersistentAt(m, n, i);
    }
  }

  lemma PersistentMonotone(a: Mask, b: Mask, n: int)
    requires Subset(a, b)
    ensures Subset(Persistent(a, n), Persistent(b, n))
  {
    var w: nat := if n < 1 then 1 else n;
    forall i | 0 <= i < |a| && Persistent(a, n)[i] ensures Persistent(b, n)[i] {
      PersistentIsOpening(a, n, i);
      PersistentIsOpening(b, n, i);
      var lo, hi :| 0 <= lo <= i < hi <= |a| && AllTrue(a, lo, hi) && hi - lo == w;
      assert AllTrue(b, lo, hi);
    }
  }

  lemma {:induction false} AtLeastTwice(rs: seq<Run>, a: int, b: int)
    ensures AtLeast(AtLeast(rs, a), b) == AtLeast(rs, if a < b then b else a)
  {
    if rs == [] {
    } else {
      AtLeastTwice(rs[1..], a, b);
      if a <= rs[0].Length() {
        assert AtLeast(rs, a)[1..] == AtLeast(rs[1..], a);
      } else {
        assert AtLeast(rs, a) == AtLeast(rs[1..], a);
      }
    }
  }

  /** Filtering twice is filtering once by the stricter threshold; in particular the filter is idempotent. */
  lemma PersistentTwice(m: Mask, a: int, b: int)
    ensures Persistent(Persistent(m, a), b) == Persistent(m, if a < b then b else a)
  {
    RunsOfPersistent(m, a);
    AtLeastTwice(Runs(m), a, b);
  }

  // The two audits combine the filter with sample validity in opposite orders.

  /** `_load_trace` of both audits accepts only this validity: every frame but the reset frame 0. */
  function OnlyResetInvalid(length: nat): (valid: Mask)
    ensures |valid| == length
  {
    seq(length, i => i != 0)
  }

  /** V3: filter the expected mask, then drop the invalid frame. */
  function FilterThenMask(expected: Mask, n: int): (m: Mask)
    ensures |m| == |expected|
  {
    And(Persistent(expected, n), OnlyResetInvalid(|expected|))
  }

  /** V4: drop the invalid frame, then filter. */
  function MaskThenFilter(expected: Mask, n: int): (m: Mask)
    ensures |m| == |expected|
  {
    Persistent(And(expected, OnlyResetInvalid(|expected|)), n)
  }

  /** Dropping frame 0 shortens the run that starts there and changes no other run. */
  lemma RunAfterReset(m: Mask, i: nat)
    requires 0 < i < |m| && m[i]
    ensures var masked := And(m, OnlyResetInvalid(|m|));
      masked[i] && RunAt(masked, i) == Run(if RunAt(m, i).start == 0 then 1 else RunAt(m, i).start, RunAt(m, i).end)
  {
    var masked := And(m, OnlyResetInvalid(|m|));
    var r := RunAt(m, i);
    var q := Run(if r.start == 0 then 1 else r.start, r.end);
    assert IsRun(masked, q);
    CoveringRunIsUnique(masked, i, q);
  }

  /** The run at the reset frame is exactly as long as the threshold. */
  predicate ResetRunAtThreshold(expected: Mask, n: int) {
    2 <= n && 0 < |expected| && expected[0] && RunEnd(expected, 0) == n
  }

  lemma FiltersDifferOnlyInResetRun(expected: Mask, n: int, i: nat)
    requires i < |expected|
    ensures FilterThenMask(expected, n)[i] == MaskThenFilter(expected, n)[i]
      || (ResetRunAtThreshold(expected, n) && 0 < i < n)
  {
    var masked := And(expected, OnlyResetInvalid(|expected|));
    PersistentAt(expected, n, i);
    PersistentAt(masked, n, i);
    if 0 < i && expected[i] {
      RunAfterReset(expected, i);
      if RunAt(expected, i).start == 0 {
        assert RunAt(expected, i) == RunAt(expected, 0) by { CoveringRunIsUnique(expected, 0, RunAt(expected, i)); }
      }
    }
  }

  /** Main fact: V3's and V4's persistent masks differ on some frame iff the threshold is at least two and the
      run at frame 0 lasts exactly that long. */
  lemma FilterOrdersAgree(expected: Mask, n: int)
    ensures FilterThenMask(expected, n) == MaskThenFilter(expected, n) <==> !ResetRunAtThreshold(expected, n)
  {
    forall i | 0 <= i < |expected| ensures FilterThenMask(expected, n)[i] == MaskThenFilter(expected, n)[i]
      || (ResetRunAtThreshold(expected, n) && 0 < i < n) {
      FiltersDifferOnlyInResetRun(expected, n, i);
    }
    if ResetRunAtThreshold(expected, n) {
      assert RunAt(expected, 0) == Run(0, n);
      CoveringRunIsUnique(expected, 1, Run(0, n));
      RunAfterReset(expected, 1);
      PersistentAt(expected, n, 1);
      PersistentAt(And(expected, OnlyResetInvalid(|expected|)), n, 1);
      assert FilterThenMask(expected, n)[1] != MaskThenFilter(expected, n)[1];
    }
  }

  /** A concrete disagreement at the shipped threshold of three. */
  lemma FilterOrdersDisagreeExample()
    ensures FilterThenMask([true, true, true, false], PERSISTENT_STEPS)
         != MaskThenFilter([true, true, true, false], PERSISTENT_STEPS)
  {
    FilterOrdersAgree([true, true, true, false], PERSISTENT_STEPS);
    assert RunEnd([true, true, true, false], 3) == 3;
    assert RunEnd([true, true, true, false], 2) == 3;
  }
}
