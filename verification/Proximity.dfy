/** Threshold runs of the source-qualification proximity proxy and the HOCap gate on them. */
module Proximity {
  import opened Masks
  import opened MaximalRuns
  import opened RunEncoders

  function Below(distances: seq<real>, threshold: real): (m: Mask)
    ensures |m| == |distances| && forall t :: 0 <= t < |m| ==> m[t] == (distances[t] < threshold)
  {
    seq(|distances|, t requires 0 <= t < |distances| => distances[t] < threshold)
  }

  /** threshold_runs[f"lt_{mm}mm"]. */
  function ThresholdRuns(distances: seq<real>, mm: nat): seq<Span> {
    Closed(Runs(Below(distances, mm as real / 1000.0)))
  }

  /** any(stop - start + 1 >= 5) over the 5 mm runs. */
  predicate HocapGate(distances: seq<real>) {
    exists s :: s in ThresholdRuns(distances, 5) && s.last - s.first + 1 >= 5
  }

  lemma SpanIsRun(m: Mask, s: Span)
    ensures s in Closed(Runs(m)) <==> 0 <= s.first <= s.last && IsRun(m, Run(s.first, s.last + 1))
  {
    RunsAreRuns(m);
    if s in Closed(Runs(m)) {
      var k :| 0 <= k < |Runs(m)| && Closed(Runs(m))[k] == s;
      assert Runs(m)[k] in Runs(m);
    }
    if 0 <= s.first <= s.last && IsRun(m, Run(s.first, s.last + 1)) {
      var k :| 0 <= k < |Runs(m)| && Runs(m)[k] == Run(s.first, s.last + 1);
      assert Closed(Runs(m))[k] == s;
    }
  }

  /** Main fact, the threshold runs: a span is listed iff all its frames are nearer than that many millimetres and no
      neighbour is; the spans are listed in order and never touch. */
  lemma ThresholdRunIs(distances: seq<real>, mm: nat, s: Span)
    ensures s in ThresholdRuns(distances, mm) <==>
      && 0 <= s.first <= s.last < |distances|
      && (forall t :: s.first <= t <= s.last ==> distances[t] < mm as real / 1000.0)
      && (s.first > 0 ==> distances[s.first - 1] >= mm as real / 1000.0)
      && (s.last + 1 < |distances| ==> distances[s.last + 1] >= mm as real / 1000.0)
    ensures var spans := ThresholdRuns(distances, mm);
      forall j, k :: 0 <= j < k < |spans| ==> spans[j].last + 1 < spans[k].first
  {
    SpanIsRun(Below(distances, mm as real / 1000.0), s);
    RunsAreRuns(Below(distances, mm as real / 1000.0));
  }

  predicate Within(inner: Span, outer: Span) {
    outer.first <= inner.first && inner.last <= outer.last
  }

  lemma SpansNest(a: Mask, b: Mask, s: Span) returns (q: Span)
    requires Subset(a, b) && s in Closed(Runs(a))
    ensures q in Closed(Runs(b)) && Within(s, q)
    ensures forall p :: p in Closed(Runs(b)) && Within(s, p) ==> p == q
  {
    SpanIsRun(a, s);
    var inner := Run(s.first, s.last + 1);
    RunsNest(a, b, inner);
    var r :| IsRun(b, r) && inner.Inside(r);
    q := Span(r.start, r.end - 1);
    SpanIsRun(b, q);
    forall p | p in Closed(Runs(b)) && Within(s, p) ensures p == q {
      SpanIsRun(b, p);
      assert inner.Inside(Run(p.first, p.last + 1));
    }
  }

  /** Main fact: a run at a smaller threshold (2 in 5, 5 in 10 mm) lies in exactly one run at a larger one. */
  lemma ThresholdRunsNest(distances: seq<real>, small: nat, large: nat, s: Span) returns (q: Span)
    requires small <= large && s in ThresholdRuns(distances, small)
    ensures q in ThresholdRuns(distances, large) && Within(s, q)
    ensures forall p :: p in ThresholdRuns(distances, large) && Within(s, p) ==> p == q
  {
    q := SpansNest(Below(distances, small as real / 1000.0), Below(distances, large as real / 1000.0), s);
  }

  lemma LongSpanIsTrueInterval(m: Mask, n: nat)
    requires 0 < n
    ensures (exists s :: s in Closed(Runs(m)) && s.last - s.first + 1 >= n)
       <==> (exists lo: nat, hi: nat :: lo + n <= hi <= |m| && AllTrue(m, lo, hi))
  {
    if s :| s in Closed(Runs(m)) && s.last - s.first + 1 >= n {
      SpanIsRun(m, s);
      var lo: nat, hi: nat := s.first, s.last + 1;
      assert lo + n <= hi <= |m| && AllTrue(m, lo, hi);
    }
    if lo: nat, hi: nat :| lo + n <= hi <= |m| && AllTrue(m, lo, hi) {
      TrueIntervalInsideRun(m, lo, hi, lo);
      var r := RunAt(m, lo);
      var s := Span(r.start, r.end - 1);
      SpanIsRun(m, s);
      assert s.last - s.first + 1 >= n;
    }
  }

  /** Main fact: the HOCap gate holds iff some five consecutive frames are all nearer than 5 mm. */
  lemma HocapGateIsFiveNearFrames(distances: seq<real>)
    ensures HocapGate(distances) <==> exists t: nat :: t + 4 < |distances| && FiveNear(distances, t)
  {
    var m := Below(distances, 5 as real / 1000.0);
    LongSpanIsTrueInterval(m, 5);
    if lo: nat, hi: nat :| lo + 5 <= hi <= |m| && AllTrue(m, lo, hi) {
      assert m[lo] && m[lo + 1] && m[lo + 2] && m[lo + 3] && m[lo + 4];
      assert FiveNear(distances, lo);
    }
    if t: nat :| t + 4 < |distances| && FiveNear(distances, t) {
      assert AllTrue(m, t, t + 5);
    }
  }

  predicate FiveNear(distances: seq<real>, t: nat)
    requires t + 4 < |distances|
  {
    && distances[t] < 0.005 && distances[t + 1] < 0.005 && distances[t + 2] < 0.005
    && distances[t + 3] < 0.005 && distances[t + 4] < 0.005
  }
}
