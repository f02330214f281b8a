/** The declarative notion of a maximal run that every run encoder of the audits must produce. */
module MaximalRuns {
  import opened Masks

  /** A run in the half-open form of `_runs`. */
  datatype Run = Run(start: nat, end: nat) {
    function Length(): int { end - start }
    predicate Covers(i: int) { start <= i < end }
    predicate Inside(outer: Run) { outer.start <= start && end <= outer.end }
  }

  /** `r` is non-empty, all true, and can be extended on neither side. */
  predicate IsRun(m: Mask, r: Run) {
    && r.start < r.end <= |m|
    && AllTrue(m, r.start, r.end)
    && (r.start == 0 || !m[r.start - 1])
    && (r.end == |m| || !m[r.end])
  }

  /** Sorted, disjoint and not even touching. */
  predicate Separated(rs: seq<Run>) {
    forall j, k :: 0 <= j < k < |rs| ==> rs[j].end < rs[k].start
  }

  ghost predicate IsRunList(m: Mask, rs: seq<Run>) {
    Separated(rs) && forall r :: r in rs <==> IsRun(m, r)
  }

  function RunEnd(m: Mask, i: nat): (e: nat)
    requires i <= |m|
    ensures i <= e <= |m| && AllTrue(m, i, e) && (e == |m| || !m[e])
    decreases |m| - i
  {
    if i == |m| || !m[i] then i else RunEnd(m, i + 1)
  }

  function RunStart(m: Mask, i: nat): (s: nat)
    requires i <= |m|
    ensures s <= i && AllTrue(m, s, i) && (s == 0 || !m[s - 1])
  {
    if i == 0 || !m[i - 1] then i else RunStart(m, i - 1)
  }

  function RunsFrom(m: Mask, i: nat): seq<Run>
    requires i <= |m|
    decreases |m| - i
  {
    if i == |m| then []
    else if !m[i] then RunsFrom(m, i + 1)
    else [Run(i, RunEnd(m, i + 1))] + RunsFrom(m, RunEnd(m, i + 1))
  }

  function Runs(m: Mask): seq<Run> {
    RunsFrom(m, 0)
  }

  /** At a run's first frame the scan's candidate is the only run that starts before its end. */
  lemma FirstRun(m: Mask, i: nat, r: Run)
    requires i < |m| && m[i] && (i == 0 || !m[i - 1])
    requires IsRun(m, r) && i <= r.start
    ensures r == Run(i, RunEnd(m, i + 1)) || RunEnd(m, i + 1) < r.start
  {
    var e := RunEnd(m, i + 1);
    if r.start <= e {
      assert !(r.start == e) && !(i < r.start);
      assert !(e < r.end) && !(r.end < e);
    }
  }

  lemma {:induction false} RunsFromAreRuns(m: Mask, i: nat)
    requires i <= |m| && (i == 0 || i == |m| || !m[i - 1] || !m[i])
    ensures forall r :: r in RunsFrom(m, i) <==> IsRun(m, r) && i <= r.start
    decreases |m| - i
  {
    if i == |m| {
    } else if !m[i] {
      RunsFromAreRuns(m, i + 1);
    } else {
      var e := RunEnd(m, i + 1);
      RunsFromAreRuns(m, e);
      forall r ensures r in RunsFrom(m, i) <==> IsRun(m, r) && i <= r.start {
        assert r in RunsFrom(m, i) <==> r == Run(i, e) || r in RunsFrom(m, e);
        if IsRun(m, r) && i <= r.start {
          FirstRun(m, i, r);
        }
      }
    }
  }

  lemma {:induction false} RunsFromSeparated(m: Mask, i: nat)
    requires i <= |m| && (i == 0 || i == |m| || !m[i - 1] || !m[i])
    ensures Separated(RunsFrom(m, i))
    decreases |m| - i
  {
    if i == |m| {
    } else if !m[i] {
      RunsFromSeparated(m, i + 1);
    } else {
      var e := RunEnd(m, i + 1);
      RunsFromSeparated(m, e);
      RunsFromAreRuns(m, e);
      var rest := RunsFrom(m, e);
      forall k | 0 <= k < |rest| ensures e < rest[k].start {
        assert rest[k] in rest;
        assert IsRun(m, rest[k]) && e <= rest[k].start;
      }
      SeparatedAppend(Run(i, e), rest);
    }
  }

  lemma SeparatedAppend(r: Run, rest: seq<Run>)
    requires Separated(rest) && forall k :: 0 <= k < |rest| ==> r.end < rest[k].start
    ensures Separated([r] + rest)
  {
  }

  /** Main fact: the scan yields the one separated list of all maximal runs. */
  lemma RunsCharacterised(m: Mask, rs: seq<Run>)
    ensures rs == Runs(m) <==> IsRunList(m, rs)
  {
    RunsFromAreRuns(m, 0);
    RunsFromSeparated(m, 0);
    if IsRunList(m, rs) {
      assert forall k :: 0 <= k < |rs| ==> rs[k] in rs;
      assert forall k :: 0 <= k < |Runs(m)| ==> Runs(m)[k] in Runs(m);
      SpacedListsAgree(rs, Runs(m));
    }
  }

  lemma RunsAreRuns(m: Mask)
    ensures IsRunList(m, Runs(m))
  {
    RunsCharacterised(m, Runs(m));
  }

  /** A list of non-empty runs of which no two touch. */
  ghost predicate Spaced(rs: seq<Run>) {
    Separated(rs) && forall k :: 0 <= k < |rs| ==> rs[k].start < rs[k].end
  }

  lemma FirstRunsAgree(rs: seq<Run>, ts: seq<Run>)
    requires Spaced(rs) && Spaced(ts) && rs != [] && ts != []
    requires rs[0] in ts && ts[0] in rs
    ensures rs[0] == ts[0]
  {
    var j :| 0 <= j < |ts| && ts[j] == rs[0];
    var k :| 0 <= k < |rs| && rs[k] == ts[0];
  }

  lemma RestOfSpaced(rs: seq<Run>, r: Run)
    requires rs != [] && Spaced(rs)
    ensures r in rs[1..] <==> r in rs && r != rs[0]
  {
    assert rs == [rs[0]] + rs[1..];
    if r in rs[1..] {
      var k :| 0 <= k < |rs[1..]| && rs[1..][k] == r;
      assert rs[k + 1] == r;
    }
  }

  lemma {:induction false} SpacedListsAgree(rs: seq<Run>, ts: seq<Run>)
    requires Spaced(rs) && Spaced(ts)
    requires forall r :: r in rs <==> r in ts
    ensures rs == ts
  {
    assert rs != [] ==> rs[0] in ts;
    assert ts != [] ==> ts[0] in rs;
    if rs == [] {
    } else {
      FirstRunsAgree(rs, ts);
      forall r ensures r in rs[1..] <==> r in ts[1..] {
        RestOfSpaced(rs, r);
        RestOfSpaced(ts, r);
      }
      SpacedListsAgree(rs[1..], ts[1..]);
      assert rs == [rs[0]] + rs[1..] && ts == [ts[0]] + ts[1..];
    }
  }

  /** Every true frame lies in the run found by extending it both ways. */
  function RunAt(m: Mask, i: nat): (r: Run)
    requires i < |m| && m[i]
    ensures IsRun(m, r) && r.Covers(i)
  {
    Run(RunStart(m, i), RunEnd(m, i))
  }

  lemma CoveringRunIsUnique(m: Mask, i: nat, r: Run)
    requires IsRun(m, r) && r.Covers(i)
    ensures r == RunAt(m, i)
  {
    var q := RunAt(m, i);
    assert !(r.start < q.start) && !(q.start < r.start);
    assert !(r.end < q.end) && !(q.end < r.end);
  }

  /** A true interval lies inside the run of any of its frames. */
  lemma TrueIntervalInsideRun(m: Mask, lo: nat, hi: nat, i: nat)
    requires lo <= i < hi <= |m| && AllTrue(m, lo, hi)
    ensures Run(lo, hi).Inside(RunAt(m, i))
  {
    var r := RunAt(m, i);
    assert !(lo < r.start);
    assert !(r.end < hi);
  }

  /** Nesting: if a is a subset of b, each run of a lies in exactly one run of b. */
  lemma RunsNest(a: Mask, b: Mask, r: Run)
    requires Subset(a, b) && IsRun(a, r)
    ensures exists q :: IsRun(b, q) && r.Inside(q)
    ensures forall p, q :: IsRun(b, p) && r.Inside(p) && IsRun(b, q) && r.Inside(q) ==> p == q
  {
    assert a[r.start];
    TrueIntervalInsideRun(b, r.start, r.end, r.start);
    assert IsRun(b, RunAt(b, r.start));
    forall p | IsRun(b, p) && r.Inside(p) ensures p == RunAt(b, r.start) {
      CoveringRunIsUnique(b, r.start, p);
    }
  }

  /** The runs that pass a duration threshold, in order. */
  function AtLeast(rs: seq<Run>, n: int): (ls: seq<Run>)
    ensures forall r :: r in ls <==> r in rs && n <= r.Length()
  {
    if rs == [] then []
    else (if n <= rs[0].Length() then [rs[0]] else []) + AtLeast(rs[1..], n)
  }

  lemma {:induction false} AtLeastSeparated(rs: seq<Run>, n: int)
    requires Separated(rs)
    ensures Separated(AtLeast(rs, n))
  {
    if rs == [] {
    } else {
      AtLeastSeparated(rs[1..], n);
      var rest := AtLeast(rs[1..], n);
      forall k | 0 <= k < |rest| ensures rs[0].end < rest[k].start {
        assert rest[k] in rs[1..];
      }
    }
  }

  /** The mask that is true exactly on the given runs. */
  function Paint(rs: seq<Run>, length: nat): (m: Mask)
    ensures |m| == length
    ensures forall i :: 0 <= i < length ==> (m[i] <==> exists r :: r in rs && r.Covers(i))
  {
    seq(length, i => exists r :: r in rs && r.Covers(i))
  }

  /** Painting the runs of a mask rebuilds the mask. */
  lemma PaintInvertsRuns(m: Mask)
    ensures Paint(Runs(m), |m|) == m
  {
    RunsAreRuns(m);
    forall i | 0 <= i < |m| ensures Paint(Runs(m), |m|)[i] == m[i] {
      if m[i] {
        assert RunAt(m, i) in Runs(m);
      }
    }
  }

  lemma RunsInjective(a: Mask, b: Mask)
    requires |a| == |b| && Runs(a) == Runs(b)
    ensures a == b
  {
    PaintInvertsRuns(a);
    PaintInvertsRuns(b);
  }

  /** And taking the runs of a painted, separated list of non-empty runs gives the list back. */
  lemma RunsInvertPaint(rs: seq<Run>, length: nat)
    requires Separated(rs)
    requires forall r :: r in rs ==> r.start < r.end <= length
    ensures Runs(Paint(rs, length)) == rs
  {
    var m := Paint(rs, length);
    forall r | r in rs ensures IsRun(m, r) {
      PaintedRunIsMaximal(rs, length, r);
    }
    forall r | IsRun(m, r) ensures r in rs {
      assert m[r.start];
      var q :| q in rs && q.Covers(r.start);
      PaintedRunIsMaximal(rs, length, q);
      CoveringRunIsUnique(m, r.start, r);
      CoveringRunIsUnique(m, r.start, q);
    }
    RunsCharacterised(m, rs);
  }

  lemma PaintedRunIsMaximal(rs: seq<Run>, length: nat, r: Run)
    requires Separated(rs) && r in rs
    requires forall q :: q in rs ==> q.start < q.end <= length
    ensures IsRun(Paint(rs, length), r)
  {
    var m := Paint(rs, length);
    var k :| 0 <= k < |rs| && rs[k] == r;
    forall q | q in rs ensures q == r || q.end < r.start || r.end < q.start {
      var j :| 0 <= j < |rs| && rs[j] == q;
    }
    assert forall i :: r.start <= i < r.end ==> r.Covers(i);
  }

  /** Total duration of a list of runs. */
  function TotalLength(rs: seq<Run>): int {
    if rs == [] then 0 else rs[0].Length() + TotalLength(rs[1..])
  }

  /** Conservation: the run lengths add up to the number of true frames. */
  lemma {:induction false} TotalLengthIsCount(m: Mask, i: nat)
    requires i <= |m|
    ensures TotalLength(RunsFrom(m, i)) == CountIn(m, i, |m|)
    decreases |m| - i
  {
    if i == |m| {
    } else if !m[i] {
      TotalLengthIsCount(m, i + 1);
      CountSplit(m, i, i + 1, |m|);
    } else {
      var e := RunEnd(m, i + 1);
      TotalLengthIsCount(m, e);
      CountSplit(m, i, e, |m|);
      CountUniform(m, i, e);
      assert RunsFrom(m, i)[1..] == RunsFrom(m, e);
    }
  }

  /** Longest duration, 0 without runs: max(..., default=0). */
  function Longest(rs: seq<Run>): (n: int)
    ensures 0 <= n
    ensures forall r :: r in rs ==> r.Length() <= n
    ensures n == 0 || exists r :: r in rs && r.Length() == n
  {
    if rs == [] then 0
    else if rs[0].Length() <= Longest(rs[1..]) then Longest(rs[1..])
    else rs[0].Length()
  }

  /** `Longest` bounds every true interval, and one interval attains it. */
  lemma LongestIsMaximalInterval(m: Mask)
    ensures forall lo, hi :: 0 <= lo <= hi <= |m| && AllTrue(m, lo, hi) ==> hi - lo <= Longest(Runs(m))
    ensures exists lo, hi :: 0 <= lo <= hi <= |m| && AllTrue(m, lo, hi) && hi - lo == Longest(Runs(m))
  {
    RunsAreRuns(m);
    var n := Longest(Runs(m));
    forall lo, hi | 0 <= lo <= hi <= |m| && AllTrue(m, lo, hi) ensures hi - lo <= n {
      if lo < hi {
        TrueIntervalInsideRun(m, lo, hi, lo);
        assert RunAt(m, lo) in Runs(m);
      }
    }
    if n == 0 {
      assert AllTrue(m, 0, 0);
    } else {
      var r :| r in Runs(m) && r.Length() == n;
      assert AllTrue(m, r.start, r.end);
    }
  }
}
