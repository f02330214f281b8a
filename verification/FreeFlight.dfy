/** The two independently written free-flight detectors: the V3 audit's `_free_flight_events` and the
    Reward V3 classifier's `_events`. */
module FreeFlight {
  import opened Basics
  import opened Masks
  import opened MaximalRuns
  import opened RunEncoders
  import opened Persistence
  import opened ContactTrace

  /** A loss of all expected contact that ends in a re-contact at frame `end`. */
  datatype Event = Event(episode: nat, start: nat, end: nat, recontact: nat)

  predicate AnyExpected(tr: Trace, t: nat)
    requires tr.Shaped() && t < tr.frames
  {
    exists f :: 0 <= f < tr.fingers && tr.Expected(t, f)
  }

  /** Some expected finger touches, in the masked contact of the audit. */
  predicate ValidMatch(tr: Trace, t: nat, e: nat)
    requires tr.Shaped() && tr.Sample(t, e)
  {
    exists f :: 0 <= f < tr.fingers && tr.Expected(t, f) && tr.Contact(t, e, f)
  }

  /** Some expected finger touches, in the raw contact of the classifier. */
  predicate RawMatch(tr: Trace, t: nat, e: nat)
    requires tr.Shaped() && tr.Sample(t, e)
  {
    exists f :: 0 <= f < tr.fingers && tr.Expected(t, f) && tr.actual[t][e][f]
  }

  /** (magnitude * expected).sum() over the first n fingers. */
  function ExpectedForce(tr: Trace, t: nat, e: nat, n: nat): real
    requires tr.Shaped() && tr.Sample(t, e) && n <= tr.fingers
  {
    if n == 0 then 0.0
    else ExpectedForce(tr, t, e, n - 1) + if tr.Expected(t, n - 1) then tr.magnitude[t][e][n - 1] else 0.0
  }

  lemma {:induction false} ForceNeedsExpectation(tr: Trace, t: nat, e: nat, n: nat)
    requires tr.Shaped() && tr.Sample(t, e) && n <= tr.fingers
    ensures ExpectedForce(tr, t, e, n) != 0.0 ==> exists f :: 0 <= f < n && tr.Expected(t, f)
  {
    if n == 0 {
    } else {
      ForceNeedsExpectation(tr, t, e, n - 1);
    }
  }

  /** The same trace with another force on one finger at one sample. */
  function WithForce(tr: Trace, t: nat, e: nat, f: nat, x: real): (tr': Trace)
    requires tr.Shaped() && tr.Sample(t, e) && f < tr.fingers
    ensures tr'.Shaped() && tr'.Sample(t, e) && tr'.fingers == tr.fingers && tr'.distance == tr.distance
    ensures forall g :: 0 <= g < tr.fingers ==> tr'.magnitude[t][e][g] == if g == f then x else tr.magnitude[t][e][g]
  {
    tr.(magnitude := tr.magnitude[t := tr.magnitude[t][e := tr.magnitude[t][e][f := x]]])
  }

  lemma {:induction false} ForceOfFingers(tr: Trace, t: nat, e: nat, n: nat, f: nat, x: real)
    requires tr.Shaped() && tr.Sample(t, e) && f < tr.fingers && n <= tr.fingers
    ensures ExpectedForce(WithForce(tr, t, e, f, x), t, e, n)
         == ExpectedForce(tr, t, e, n) + if f < n && tr.distance[t][f] < 0.03 then x - tr.magnitude[t][e][f] else 0.0
  {
    if n == 0 {
    } else {
      ForceOfFingers(tr, t, e, n - 1, f, x);
      assert WithForce(tr, t, e, f, x).Expected(t, n - 1) == tr.Expected(t, n - 1);
    }
  }

  lemma {:induction false} NoForces(tr: Trace, t: nat, e: nat, n: nat)
    requires tr.Shaped() && tr.Sample(t, e) && n <= tr.fingers
    requires forall f :: 0 <= f < n ==> tr.magnitude[t][e][f] == 0.0
    ensures ExpectedForce(tr, t, e, n) == 0.0
  {
    if n == 0 {
    } else {
      NoForces(tr, t, e, n - 1);
    }
  }

  /** Main fact, force: it is nothing without magnitudes, and a change of one finger's magnitude changes it by as much
      iff that finger is expected; so it is the sum over the expected fingers. */
  lemma ForceIsSumOverExpected(tr: Trace, t: nat, e: nat, f: nat, x: real)
    requires tr.Shaped() && tr.Sample(t, e) && f < tr.fingers
    ensures (forall g :: 0 <= g < tr.fingers ==> tr.magnitude[t][e][g] == 0.0) ==>
              ExpectedForce(tr, t, e, tr.fingers) == 0.0
    ensures ExpectedForce(WithForce(tr, t, e, f, x), t, e, tr.fingers) - ExpectedForce(tr, t, e, tr.fingers)
         == if tr.distance[t][f] < 0.03 then x - tr.magnitude[t][e][f] else 0.0
  {
    ForceOfFingers(tr, t, e, tr.fingers, f, x);
    if forall g :: 0 <= g < tr.fingers ==> tr.magnitude[t][e][g] == 0.0 {
      NoForces(tr, t, e, tr.fingers);
    }
  }

  // What each detector reads for one episode.

  function ForceSeries(tr: Trace, e: nat): (s: seq<real>)
    requires tr.Shaped() && e < tr.episodes
    ensures |s| == tr.frames
    ensures forall t :: 0 <= t < tr.frames ==> s[t] == ExpectedForce(tr, t, e, tr.fingers)
  {
    seq(tr.frames, t requires 0 <= t < tr.frames => ExpectedForce(tr, t, e, tr.fingers))
  }

  /** expected[t] & actual[t] in the audit's masked contact, over all frames. */
  function AuditTouched(tr: Trace, e: nat): (m: Mask)
    requires tr.Shaped() && e < tr.episodes
    ensures |m| == tr.frames
    ensures forall t :: 0 <= t < tr.frames ==> m[t] == ValidMatch(tr, t, e)
  {
    seq(tr.frames, t requires 0 <= t < tr.frames => ValidMatch(tr, t, e))
  }

  function AuditMatched(tr: Trace, e: nat): (m: Mask)
    requires tr.Shaped() && e < tr.episodes
    ensures |m| == tr.frames
    ensures forall t :: 0 <= t < tr.frames ==> m[t] == (tr.valid[t][e] && ValidMatch(tr, t, e))
  {
    seq(tr.frames, t requires 0 <= t < tr.frames =>
      exists f :: 0 <= f < tr.fingers && (tr.Expected(t, f) && tr.valid[t][e]) && tr.Contact(t, e, f))
  }

  function AuditLoss(tr: Trace, e: nat): (m: Mask)
    requires tr.Shaped() && e < tr.episodes
    ensures |m| == tr.frames
    ensures forall t :: 0 <= t < tr.frames ==> m[t] == (AnyExpected(tr, t) && tr.valid[t][e] && !AuditMatched(tr, e)[t])
  {
    seq(tr.frames, t requires 0 <= t < tr.frames =>
      (exists f :: 0 <= f < tr.fingers && (tr.Expected(t, f) && tr.valid[t][e])) && !AuditMatched(tr, e)[t])
  }

  function ClassifierMatched(tr: Trace, e: nat): (m: Mask)
    requires tr.Shaped() && e < tr.episodes
    ensures |m| == tr.frames
  {
    seq(tr.frames, t requires 0 <= t < tr.frames => RawMatch(tr, t, e) && tr.valid[t][e])
  }

  function ClassifierLoss(tr: Trace, e: nat): (m: Mask)
    requires tr.Shaped() && e < tr.episodes
    ensures |m| == tr.frames
  {
    seq(tr.frames, t requires 0 <= t < tr.frames =>
      (AnyExpected(tr, t) && tr.valid[t][e]) && !ClassifierMatched(tr, e)[t])
  }

  function Preloss(start: nat): nat {
    if start == 0 then 0 else start - 1
  }

  // The audit.

  predicate AuditKeeps(matched: Mask, touched: Mask, force: seq<real>, r: Run)
    requires |matched| == |touched| == |force|
  {
    && PERSISTENT_STEPS <= r.end - r.start
    && r.end < |matched|
    && touched[Preloss(r.start)]
    && force[Preloss(r.start)] > 0.0
    && matched[r.end]
  }

  function AuditSelect(matched: Mask, touched: Mask, force: seq<real>, e: nat, rs: seq<Run>): seq<Event>
    requires |matched| == |touched| == |force|
  {
    if rs == [] then []
    else (if AuditKeeps(matched, touched, force, rs[0]) then [Event(e, rs[0].start, rs[0].end, rs[0].end)] else [])
         + AuditSelect(matched, touched, force, e, rs[1..])
  }

  function AuditEpisode(tr: Trace, e: nat): seq<Event>
    requires tr.Shaped() && e < tr.episodes
  {
    AuditSelect(AuditMatched(tr, e), AuditTouched(tr, e), ForceSeries(tr, e), e, Runs(AuditLoss(tr, e)))
  }

  function AuditEvents(tr: Trace, episodes: nat): seq<Event>
    requires tr.Shaped() && episodes <= tr.episodes
  {
    if episodes == 0 then [] else AuditEvents(tr, episodes - 1) + AuditEpisode(tr, episodes - 1)
  }

  /** What the k-th run adds to the events found before it. */
  lemma AuditSelectStep(matched: Mask, touched: Mask, force: seq<real>, e: nat, rs: seq<Run>, k: nat, found: seq<Event>)
    requires |matched| == |touched| == |force| && k < |rs|
    ensures var event := Event(e, rs[k].start, rs[k].end, rs[k].end);
      found + AuditSelect(matched, touched, force, e, rs[k..])
        == (if AuditKeeps(matched, touched, force, rs[k]) then found + [event] else found)
           + AuditSelect(matched, touched, force, e, rs[k + 1..])
  {
    assert rs[k..][0] == rs[k] && rs[k..][1..] == rs[k + 1..];
    var event := Event(e, rs[k].start, rs[k].end, rs[k].end);
    var picked := if AuditKeeps(matched, touched, force, rs[k]) then [event] else [];
    ConcatAssociative(found, picked, AuditSelect(matched, touched, force, e, rs[k + 1..]));
    assert found + [] == found;
  }

  /** The loop over the runs of one episode in `_free_flight_events`. */
  method AuditScan(loss: Mask, matched: Mask, touched: Mask, force: seq<real>, episode: nat)
    returns (result: seq<Event>)
    requires |loss| == |matched| == |touched| == |force|
    ensures result == AuditSelect(matched, touched, force, episode, Runs(loss))
  {
    result := [];
    var runs := FindRuns(loss);
    RunsInRange(loss);
    ghost var all := AuditSelect(matched, touched, force, episode, runs);
    assert runs[0..] == runs;
    for k := 0 to |runs|
      invariant result + AuditSelect(matched, touched, force, episode, runs[k..]) == all
    {
      var start, end := runs[k].start, runs[k].end;
      AuditSelectStep(matched, touched, force, episode, runs, k, result);
      var preloss := if start == 0 then 0 else start - 1;
      if end - start < PERSISTENT_STEPS || end >= |loss| || !touched[preloss] || force[preloss] <= 0.0 {
        continue;
      }
      if !matched[end] {
        continue;
      }
      result := result + [Event(episode, start, end, end)];
    }
  }

  lemma RunsInRange(m: Mask)
    ensures forall k :: 0 <= k < |Runs(m)| ==> IsRun(m, Runs(m)[k])
  {
    RunsAreRuns(m);
    assert forall k :: 0 <= k < |Runs(m)| ==> Runs(m)[k] in Runs(m);
  }

  /** `_free_flight_events`. */
  method FreeFlightEvents(tr: Trace) returns (result: seq<Event>)
    requires tr.Shaped()
    ensures result == AuditEvents(tr, tr.episodes)
  {
    result := [];
    for episode := 0 to tr.episodes
      invariant result == AuditEvents(tr, episode)
    {
      var found := AuditScan(
        AuditLoss(tr, episode), AuditMatched(tr, episode), AuditTouched(tr, episode),
        ForceSeries(tr, episode), episode);
      result := result + found;
    }
  }

  // The classifier.

  predicate ClassifierKeeps(matched: Mask, force: seq<real>, r: Run)
    requires |matched| == |force|
  {
    && r.end - r.start >= 3
    && (r.end < |matched| && matched[r.end])
    && force[Preloss(r.start)] > 0.0
  }

  function ClassifierSelect(matched: Mask, force: seq<real>, e: nat, rs: seq<Run>): seq<Event>
    requires |matched| == |force|
  {
    if rs == [] then []
    else (if ClassifierKeeps(matched, force, rs[0]) then [Event(e, rs[0].start, rs[0].end, rs[0].end)] else [])
         + ClassifierSelect(matched, force, e, rs[1..])
  }

  function ClassifierEpisode(tr: Trace, e: nat): seq<Event>
    requires tr.Shaped() && e < tr.episodes
  {
    ClassifierSelect(ClassifierMatched(tr, e), ForceSeries(tr, e), e, Runs(ClassifierLoss(tr, e)))
  }

  function ClassifierEvents(tr: Trace, episodes: nat): seq<Event>
    requires tr.Shaped() && episodes <= tr.episodes
  {
    if episodes == 0 then [] else ClassifierEvents(tr, episodes - 1) + ClassifierEpisode(tr, episodes - 1)
  }

  /** What the run at `start` adds to the events found before it. */
  lemma SelectFirstRun(loss: Mask, matched: Mask, force: seq<real>, e: nat, start: nat, end: nat, found: seq<Event>)
    requires |loss| == |matched| == |force|
    requires start < end <= |loss| && loss[start] && RunEnd(loss, start) == RunEnd(loss, end) == end
    ensures found + ClassifierSelect(matched, force, e, RunsFrom(loss, start))
      == (if ClassifierKeeps(matched, force, Run(start, end)) then found + [Event(e, start, end, end)] else found)
         + ClassifierSelect(matched, force, e, RunsFrom(loss, end))
  {
    assert RunEnd(loss, start) == RunEnd(loss, start + 1);
    assert RunsFrom(loss, start)[0] == Run(start, end) && RunsFrom(loss, start)[1..] == RunsFrom(loss, end);
    var picked := if ClassifierKeeps(matched, force, Run(start, end)) then [Event(e, start, end, end)] else [];
    ConcatAssociative(found, picked, ClassifierSelect(matched, force, e, RunsFrom(loss, end)));
    assert found + [] == found;
  }

  /** Where the loss that begins at `start` ends. */
  method LossEnd(loss: Mask, start: nat) returns (end: nat)
    requires start < |loss| && loss[start]
    ensures start < end <= |loss| && RunEnd(loss, start) == RunEnd(loss, end) == end
  {
    end := start;
    while end < |loss| && loss[end]
      invariant start <= end <= |loss|
      invariant RunEnd(loss, start) == RunEnd(loss, end)
    {
      end := end + 1;
    }
  }

  /** The while loops of `_events` for one replica, which find the runs as they go. */
  method ClassifierScan(loss: Mask, matched: Mask, force: seq<real>, replica: nat) returns (result: seq<Event>)
    requires |loss| == |matched| == |force|
    ensures result == ClassifierSelect(matched, force, replica, Runs(loss))
  {
    result := [];
    var start := 0;
    ghost var all := ClassifierSelect(matched, force, replica, Runs(loss));
    while start < |loss|
      invariant start <= |loss|
      invariant result + ClassifierSelect(matched, force, replica, RunsFrom(loss, start)) == all
    {
      if !loss[start] {
        start := start + 1;
        continue;
      }
      var end := LossEnd(loss, start);
      SelectFirstRun(loss, matched, force, replica, start, end, result);
      var recontact := end < |loss| && matched[end];
      var preloss := if start == 0 then 0 else start - 1;
      if end - start >= 3 && recontact && force[preloss] > 0.0 {
        result := result + [Event(replica, start, end, end)];
      }
      start := end;
    }
  }

  /** `_events`. */
  method Events(tr: Trace) returns (result: seq<Event>)
    requires tr.Shaped()
    ensures result == ClassifierEvents(tr, tr.episodes)
  {
    result := [];
    for replica := 0 to tr.episodes
      invariant result == ClassifierEvents(tr, replica)
    {
      var found := ClassifierScan(
        ClassifierLoss(tr, replica), ClassifierMatched(tr, replica), ForceSeries(tr, replica), replica);
      result := result + found;
    }
  }

  // Both detectors see the same losses.

  lemma LossMasksAgree(tr: Trace, e: nat)
    requires tr.Shaped() && e < tr.episodes
    ensures AuditMatched(tr, e) == ClassifierMatched(tr, e)
    ensures AuditLoss(tr, e) == ClassifierLoss(tr, e)
  {
    forall t | 0 <= t < tr.frames ensures AuditMatched(tr, e)[t] == ClassifierMatched(tr, e)[t] {
      if tr.valid[t][e] {
        assert ValidMatch(tr, t, e) <==> RawMatch(tr, t, e);
      }
    }
    assert AuditMatched(tr, e) == ClassifierMatched(tr, e);
  }

  /** The frame before a loss is a match whenever it carries expected force, unless it is the reset frame. */
  lemma PrelossContactIsImplied(tr: Trace, e: nat, r: Run)
    requires tr.Shaped() && tr.OnlyResetInvalid() && e < tr.episodes
    requires IsRun(AuditLoss(tr, e), r)
    requires ForceSeries(tr, e)[Preloss(r.start)] > 0.0
    ensures AuditTouched(tr, e)[Preloss(r.start)] <==> r.start != 1
  {
    assert tr.Sample(r.start, e);
    assert AuditLoss(tr, e)[r.start];
    var p := r.start - 1;
    assert tr.Sample(p, e);
    assert !AuditLoss(tr, e)[p];
    ForceNeedsExpectation(tr, p, e, tr.fingers);
    assert AnyExpected(tr, p);
  }

  lemma KeepsAgree(tr: Trace, e: nat, r: Run)
    requires tr.Shaped() && tr.OnlyResetInvalid() && e < tr.episodes
    requires IsRun(AuditLoss(tr, e), r)
    ensures AuditKeeps(AuditMatched(tr, e), AuditTouched(tr, e), ForceSeries(tr, e), r)
       <==> ClassifierKeeps(ClassifierMatched(tr, e), ForceSeries(tr, e), r) && r.start != 1
  {
    LossMasksAgree(tr, e);
    if ForceSeries(tr, e)[Preloss(r.start)] > 0.0 {
      PrelossContactIsImplied(tr, e, r);
    }
  }

  function NotAtFrameOne(events: seq<Event>): seq<Event> {
    if events == [] then []
    else (if events[0].start != 1 then [events[0]] else []) + NotAtFrameOne(events[1..])
  }

  lemma {:induction false} NotAtFrameOneConcat(a: seq<Event>, b: seq<Event>)
    ensures NotAtFrameOne(a + b) == NotAtFrameOne(a) + NotAtFrameOne(b)
  {
    if a == [] {
      assert a + b == b;
    } else {
      var head := if a[0].start != 1 then [a[0]] else [];
      assert (a + b)[0] == a[0] && (a + b)[1..] == a[1..] + b;
      assert NotAtFrameOne(a + b) == head + NotAtFrameOne(a[1..] + b);
      NotAtFrameOneConcat(a[1..], b);
      assert head + (NotAtFrameOne(a[1..]) + NotAtFrameOne(b)) == (head + NotAtFrameOne(a[1..])) + NotAtFrameOne(b);
    }
  }

  lemma {:induction false} SelectionsAgree(
    matched: Mask, touched: Mask, force: seq<real>, e: nat, rs: seq<Run>)
    requires |matched| == |touched| == |force|
    requires forall k :: 0 <= k < |rs| ==>
      (AuditKeeps(matched, touched, force, rs[k]) <==> ClassifierKeeps(matched, force, rs[k]) && rs[k].start != 1)
    ensures AuditSelect(matched, touched, force, e, rs) == NotAtFrameOne(ClassifierSelect(matched, force, e, rs))
  {
    if rs == [] {
    } else {
      SelectionsAgree(matched, touched, force, e, rs[1..]);
      var head := if ClassifierKeeps(matched, force, rs[0]) then [Event(e, rs[0].start, rs[0].end, rs[0].end)] else [];
      NotAtFrameOneConcat(head, ClassifierSelect(matched, force, e, rs[1..]));
    }
  }

  /** Main fact: with only the reset frame invalid, the audit reports exactly the classifier's events
      that do not start at frame 1. */
  lemma {:induction false} DetectorsAgree(tr: Trace, episodes: nat)
    requires tr.Shaped() && tr.OnlyResetInvalid() && episodes <= tr.episodes
    ensures AuditEvents(tr, episodes) == NotAtFrameOne(ClassifierEvents(tr, episodes))
  {
    if episodes == 0 {
    } else {
      var e := episodes - 1;
      DetectorsAgree(tr, e);
      EpisodesAgree(tr, e);
      NotAtFrameOneConcat(ClassifierEvents(tr, e), ClassifierEpisode(tr, e));
    }
  }

  lemma EpisodesAgree(tr: Trace, e: nat)
    requires tr.Shaped() && tr.OnlyResetInvalid() && e < tr.episodes
    ensures AuditEpisode(tr, e) == NotAtFrameOne(ClassifierEpisode(tr, e))
  {
    LossMasksAgree(tr, e);
    var runs := Runs(AuditLoss(tr, e));
    RunsInRange(AuditLoss(tr, e));
    forall k | 0 <= k < |runs| {
      KeepsAgree(tr, e, runs[k]);
    }
    SelectionsAgree(AuditMatched(tr, e), AuditTouched(tr, e), ForceSeries(tr, e), e, runs);
  }

  /** Selection from one episode's runs keeps exactly the qualifying ones. */
  lemma {:induction false} SelectedEvents(matched: Mask, force: seq<real>, e: nat, rs: seq<Run>, v: Event)
    requires |matched| == |force|
    ensures v in ClassifierSelect(matched, force, e, rs) <==>
      && v.episode == e && v.recontact == v.end && Run(v.start, v.end) in rs
      && ClassifierKeeps(matched, force, Run(v.start, v.end))
  {
    if rs == [] {
    } else {
      SelectedEvents(matched, force, e, rs[1..], v);
    }
  }

  /** A listed event is a maximal loss of its own episode that meets every condition; nothing else is listed. */
  lemma {:induction false} ClassifierListed(tr: Trace, episodes: nat, v: Event)
    requires tr.Shaped() && episodes <= tr.episodes
    ensures v in ClassifierEvents(tr, episodes) <==> v.episode < episodes && Qualifies(tr, v)
  {
    if episodes == 0 {
    } else {
      var e := episodes - 1;
      ClassifierListed(tr, e, v);
      SelectedEvents(ClassifierMatched(tr, e), ForceSeries(tr, e), e, Runs(ClassifierLoss(tr, e)), v);
      RunsAreRuns(ClassifierLoss(tr, e));
    }
  }

  ghost predicate Qualifies(tr: Trace, v: Event)
    requires tr.Shaped()
  {
    && v.episode < tr.episodes && v.recontact == v.end
    && IsRun(ClassifierLoss(tr, v.episode), Run(v.start, v.end))
    && ClassifierKeeps(ClassifierMatched(tr, v.episode), ForceSeries(tr, v.episode), Run(v.start, v.end))
  }

  /** The audit lists the same events except those that start at frame 1. */
  lemma AuditListed(tr: Trace, v: Event)
    requires tr.Shaped() && tr.OnlyResetInvalid()
    ensures v in AuditEvents(tr, tr.episodes) <==> v.episode < tr.episodes && Qualifies(tr, v) && v.start != 1
  {
    DetectorsAgree(tr, tr.episodes);
    KeptNeverAtOne(ClassifierEvents(tr, tr.episodes), v);
    ClassifierListed(tr, tr.episodes, v);
  }

  // What is listed, by the entries of the trace.

  /** Some finger is expected, the sample is valid, and no expected finger touches. */
  ghost predicate LostAt(tr: Trace, t: nat, e: nat)
    requires tr.Shaped() && tr.Sample(t, e)
  {
    && tr.valid[t][e]
    && (exists f :: 0 <= f < tr.fingers && tr.distance[t][f] < 0.03)
    && !exists f :: 0 <= f < tr.fingers && tr.distance[t][f] < 0.03 && tr.actual[t][e][f]
  }

  ghost predicate TouchedAt(tr: Trace, t: nat, e: nat)
    requires tr.Shaped() && tr.Sample(t, e)
  {
    tr.valid[t][e] && exists f :: 0 <= f < tr.fingers && tr.distance[t][f] < 0.03 && tr.actual[t][e][f]
  }

  /** Three or more lost frames, no more on either side, then a touch; and force on the frame before. */
  ghost predicate IsLoss(tr: Trace, v: Event)
    requires tr.Shaped()
  {
    && v.episode < tr.episodes && v.start + 3 <= v.end < tr.frames && v.recontact == v.end
    && (forall t :: v.start <= t < v.end ==> tr.Sample(t, v.episode) && LostAt(tr, t, v.episode))
    && (v.start > 0 ==> tr.Sample(v.start - 1, v.episode) && !LostAt(tr, v.start - 1, v.episode))
    && tr.Sample(v.end, v.episode) && TouchedAt(tr, v.end, v.episode)
    && tr.Sample(if v.start == 0 then 0 else v.start - 1, v.episode)
    && ExpectedForce(tr, if v.start == 0 then 0 else v.start - 1, v.episode, tr.fingers) > 0.0
  }

  lemma MasksAtFrames(tr: Trace, e: nat)
    requires tr.Shaped() && e < tr.episodes
    ensures forall t: nat :: t < tr.frames ==>
      && tr.Sample(t, e) && ClassifierLoss(tr, e)[t] == LostAt(tr, t, e)
      && ClassifierMatched(tr, e)[t] == TouchedAt(tr, t, e) && AuditTouched(tr, e)[t] == TouchedAt(tr, t, e)
  {
    forall t: nat | t < tr.frames
      ensures tr.Sample(t, e) && ClassifierLoss(tr, e)[t] == LostAt(tr, t, e)
           && ClassifierMatched(tr, e)[t] == TouchedAt(tr, t, e) && AuditTouched(tr, e)[t] == TouchedAt(tr, t, e)
    {
      assert tr.Sample(t, e);
      FrameMasks(tr, t, e);
    }
  }

  lemma FrameMasks(tr: Trace, t: nat, e: nat)
    requires tr.Shaped() && tr.Sample(t, e)
    ensures RawMatch(tr, t, e) && tr.valid[t][e] <==> TouchedAt(tr, t, e)
    ensures ValidMatch(tr, t, e) <==> TouchedAt(tr, t, e)
    ensures AnyExpected(tr, t) && tr.valid[t][e] && !(RawMatch(tr, t, e) && tr.valid[t][e]) <==> LostAt(tr, t, e)
  {
    if TouchedAt(tr, t, e) {
      var f :| 0 <= f < tr.fingers && tr.distance[t][f] < 0.03 && tr.actual[t][e][f];
      assert tr.Expected(t, f) && tr.Contact(t, e, f);
    }
    if f :| 0 <= f < tr.fingers && tr.distance[t][f] < 0.03 {
      assert tr.Expected(t, f);
    }
  }

  lemma QualifiesIsLoss(tr: Trace, v: Event)
    requires tr.Shaped()
    ensures Qualifies(tr, v) <==> IsLoss(tr, v)
  {
    if v.episode < tr.episodes {
      MasksAtFrames(tr, v.episode);
      assert forall t: nat :: t < tr.frames && TouchedAt(tr, t, v.episode) ==> !LostAt(tr, t, v.episode);
    }
  }

  /** Main fact, the classifier's contents: an event is listed iff it is such a loss. */
  lemma EventListed(tr: Trace, v: Event)
    requires tr.Shaped()
    ensures v in ClassifierEvents(tr, tr.episodes) <==> IsLoss(tr, v)
  {
    ClassifierListed(tr, tr.episodes, v);
    QualifiesIsLoss(tr, v);
  }

  lemma {:induction false} SelectedLosses(matched: Mask, touched: Mask, force: seq<real>, e: nat, rs: seq<Run>,
                                          v: Event)
    requires |matched| == |touched| == |force|
    ensures v in AuditSelect(matched, touched, force, e, rs) <==>
      && v.episode == e && v.recontact == v.end && Run(v.start, v.end) in rs
      && AuditKeeps(matched, touched, force, Run(v.start, v.end))
  {
    if rs == [] {
    } else {
      SelectedLosses(matched, touched, force, e, rs[1..], v);
    }
  }

  /** The audit's conditions are the classifier's and a touch before the loss. */
  lemma AuditKeepsMore(matched: Mask, touched: Mask, force: seq<real>, r: Run)
    requires |matched| == |touched| == |force| && r.start < r.end
    ensures AuditKeeps(matched, touched, force, r) <==>
      ClassifierKeeps(matched, force, r) && touched[Preloss(r.start)]
  {
  }

  lemma EpisodeLosses(tr: Trace, e: nat, v: Event)
    requires tr.Shaped() && e < tr.episodes
    ensures v in AuditEpisode(tr, e) <==>
      v.episode == e && Qualifies(tr, v) && AuditTouched(tr, e)[Preloss(v.start)]
  {
    SelectedLosses(AuditMatched(tr, e), AuditTouched(tr, e), ForceSeries(tr, e), e, Runs(AuditLoss(tr, e)), v);
    RunsAreRuns(AuditLoss(tr, e));
    LossMasksAgree(tr, e);
    if v.start < v.end {
      AuditKeepsMore(AuditMatched(tr, e), AuditTouched(tr, e), ForceSeries(tr, e), Run(v.start, v.end));
    }
  }

  lemma EpisodeLossListed(tr: Trace, e: nat, v: Event)
    requires tr.Shaped() && e < tr.episodes
    ensures v in AuditEpisode(tr, e) <==> v.episode == e && IsLoss(tr, v) && PrelossTouched(tr, v)
  {
    EpisodeLosses(tr, e, v);
    QualifiesIsLoss(tr, v);
    if v.episode == e && IsLoss(tr, v) {
      MasksAtFrames(tr, e);
    }
  }

  /** The frame before the loss, or the first frame, is touched. */
  ghost predicate PrelossTouched(tr: Trace, v: Event)
    requires tr.Shaped()
  {
    var p: nat := if v.start == 0 then 0 else v.start - 1;
    tr.Sample(p, v.episode) && TouchedAt(tr, p, v.episode)
  }

  /** Main fact, the audit's contents, whatever the validity: an event is listed iff it is such a loss and the frame
      before it is touched. */
  lemma {:induction false} LossListed(tr: Trace, episodes: nat, v: Event)
    requires tr.Shaped() && episodes <= tr.episodes
    ensures v in AuditEvents(tr, episodes) <==> v.episode < episodes && IsLoss(tr, v) && PrelossTouched(tr, v)
  {
    if episodes == 0 {
    } else {
      LossListed(tr, episodes - 1, v);
      EpisodeLossListed(tr, episodes - 1, v);
    }
  }

  function EventKey(v: Event): Key {
    (v.episode, v.start, v.end)
  }

  lemma {:induction false} SelectOrdered(matched: Mask, force: seq<real>, e: nat, rs: seq<Run>)
    requires |matched| == |force| && Separated(rs) && forall k :: 0 <= k < |rs| ==> rs[k].start < rs[k].end
    ensures Ordered(ClassifierSelect(matched, force, e, rs), EventKey)
  {
    if rs == [] {
    } else {
      var r, rest := rs[0], rs[1..];
      var head := if ClassifierKeeps(matched, force, r) then [Event(e, r.start, r.end, r.end)] else [];
      var tail := ClassifierSelect(matched, force, e, rest);
      SelectOrdered(matched, force, e, rest);
      forall x, y | x in head && y in tail ensures KeyLess(EventKey(x), EventKey(y)) {
        SelectedEvents(matched, force, e, rest, y);
        var k :| 0 <= k < |rest| && rest[k] == Run(y.start, y.end);
        assert rs[k + 1] == rest[k];
      }
      OrderedConcat(head, tail, EventKey);
    }
  }

  lemma EpisodeEventsOrdered(tr: Trace, e: nat)
    requires tr.Shaped() && e < tr.episodes
    ensures Ordered(ClassifierEpisode(tr, e), EventKey)
  {
    RunsAreRuns(ClassifierLoss(tr, e));
    RunsInRange(ClassifierLoss(tr, e));
    SelectOrdered(ClassifierMatched(tr, e), ForceSeries(tr, e), e, Runs(ClassifierLoss(tr, e)));
  }

  lemma EventNamesItsEpisode(tr: Trace, e: nat, v: Event)
    requires tr.Shaped() && e < tr.episodes && v in ClassifierEpisode(tr, e)
    ensures v.episode == e
  {
    SelectedEvents(ClassifierMatched(tr, e), ForceSeries(tr, e), e, Runs(ClassifierLoss(tr, e)), v);
  }

  lemma NextEpisode(before: seq<Event>, last: seq<Event>, e: nat)
    requires Ordered(before, EventKey) && Ordered(last, EventKey)
    requires (forall x :: x in before ==> x.episode < e) && forall y :: y in last ==> y.episode == e
    ensures Ordered(before + last, EventKey)
  {
    OrderedConcat(before, last, EventKey);
  }

  lemma InEither(a: seq<Event>, b: seq<Event>, v: Event)
    ensures v in a + b <==> v in a || v in b
  {
  }

  lemma {:induction false} EarlierEvents(tr: Trace, episodes: nat, v: Event)
    requires tr.Shaped() && episodes <= tr.episodes && v in ClassifierEvents(tr, episodes)
    ensures v.episode < episodes
  {
    var before, last := ClassifierEvents(tr, episodes - 1), ClassifierEpisode(tr, episodes - 1);
    InEither(before, last, v);
    if v in last {
      EventNamesItsEpisode(tr, episodes - 1, v);
    } else {
      EarlierEvents(tr, episodes - 1, v);
    }
  }

  /** Main fact, order: the classifier's list is strictly increasing by episode, then frame; no event is twice in it. */
  lemma {:induction false} EventsOrdered(tr: Trace, episodes: nat)
    requires tr.Shaped() && episodes <= tr.episodes
    ensures Ordered(ClassifierEvents(tr, episodes), EventKey)
  {
    if episodes == 0 {
    } else {
      var before, last := ClassifierEvents(tr, episodes - 1), ClassifierEpisode(tr, episodes - 1);
      EventsOrdered(tr, episodes - 1);
      EpisodeEventsOrdered(tr, episodes - 1);
      forall x | x in before ensures x.episode < episodes - 1 {
        EarlierEvents(tr, episodes - 1, x);
      }
      forall y | y in last ensures y.episode == episodes - 1 {
        EventNamesItsEpisode(tr, episodes - 1, y);
      }
      NextEpisode(before, last, episodes - 1);
    }
  }

  lemma {:induction false} AuditSelectOrdered(matched: Mask, touched: Mask, force: seq<real>, e: nat, rs: seq<Run>)
    requires |matched| == |touched| == |force|
    requires Separated(rs) && forall k :: 0 <= k < |rs| ==> rs[k].start < rs[k].end
    ensures Ordered(AuditSelect(matched, touched, force, e, rs), EventKey)
  {
    if rs == [] {
    } else {
      var r, rest := rs[0], rs[1..];
      var head := if AuditKeeps(matched, touched, force, r) then [Event(e, r.start, r.end, r.end)] else [];
      var tail := AuditSelect(matched, touched, force, e, rest);
      AuditSelectOrdered(matched, touched, force, e, rest);
      forall x, y | x in head && y in tail ensures KeyLess(EventKey(x), EventKey(y)) {
        SelectedLosses(matched, touched, force, e, rest, y);
        var k :| 0 <= k < |rest| && rest[k] == Run(y.start, y.end);
        assert rs[k + 1] == rest[k];
      }
      OrderedConcat(head, tail, EventKey);
    }
  }

  lemma EpisodeLossesOrdered(tr: Trace, e: nat)
    requires tr.Shaped() && e < tr.episodes
    ensures Ordered(AuditEpisode(tr, e), EventKey)
  {
    RunsAreRuns(AuditLoss(tr, e));
    RunsInRange(AuditLoss(tr, e));
    AuditSelectOrdered(AuditMatched(tr, e), AuditTouched(tr, e), ForceSeries(tr, e), e, Runs(AuditLoss(tr, e)));
  }

  lemma LossNamesItsEpisode(tr: Trace, e: nat, v: Event)
    requires tr.Shaped() && e < tr.episodes && v in AuditEpisode(tr, e)
    ensures v.episode == e
  {
    SelectedLosses(AuditMatched(tr, e), AuditTouched(tr, e), ForceSeries(tr, e), e, Runs(AuditLoss(tr, e)), v);
  }

  lemma {:induction false} EarlierLosses(tr: Trace, episodes: nat, v: Event)
    requires tr.Shaped() && episodes <= tr.episodes && v in AuditEvents(tr, episodes)
    ensures v.episode < episodes
  {
    var before, last := AuditEvents(tr, episodes - 1), AuditEpisode(tr, episodes - 1);
    InEither(before, last, v);
    if v in last {
      LossNamesItsEpisode(tr, episodes - 1, v);
    } else {
      EarlierLosses(tr, episodes - 1, v);
    }
  }

  /** The audit's list is ordered in the same way. */
  lemma {:induction false} LossesOrdered(tr: Trace, episodes: nat)
    requires tr.Shaped() && episodes <= tr.episodes
    ensures Ordered(AuditEvents(tr, episodes), EventKey)
  {
    if episodes == 0 {
    } else {
      var before, last := AuditEvents(tr, episodes - 1), AuditEpisode(tr, episodes - 1);
      LossesOrdered(tr, episodes - 1);
      EpisodeLossesOrdered(tr, episodes - 1);
      forall x | x in before ensures x.episode < episodes - 1 {
        EarlierLosses(tr, episodes - 1, x);
      }
      forall y | y in last ensures y.episode == episodes - 1 {
        LossNamesItsEpisode(tr, episodes - 1, y);
      }
      NextEpisode(before, last, episodes - 1);
    }
  }

  // When the two lists are equal, by the trace alone.

  /** The frames from 1 up to `end` expect contact and have none, and frame `end` has it. */
  predicate LostUntil(tr: Trace, e: nat, end: nat)
    requires tr.Shaped() && e < tr.episodes && end < tr.frames
  {
    (forall t :: 1 <= t < end ==> AnyExpected(tr, t) && !RawMatch(tr, t, e)) && RawMatch(tr, end, e)
  }

  /** Expected force on the reset frame, and then a loss of at least three frames that ends in a match. */
  predicate ResetDrop(tr: Trace, e: nat)
    requires tr.Shaped() && e < tr.episodes
  {
    && 0 < tr.frames && ExpectedForce(tr, 0, e, tr.fingers) > 0.0
    && exists end: nat :: 4 <= end < tr.frames && LostUntil(tr, e, end)
  }

  lemma EventAtOneMeansDrop(tr: Trace, v: Event)
    requires tr.Shaped() && tr.OnlyResetInvalid()
    requires Qualifies(tr, v) && v.start == 1
    ensures ResetDrop(tr, v.episode)
  {
    var e, loss := v.episode, ClassifierLoss(tr, v.episode);
    forall t | 1 <= t < v.end ensures AnyExpected(tr, t) && !RawMatch(tr, t, e) {
      assert tr.Sample(t, e) && loss[t];
    }
    assert tr.Sample(v.end, e) && ClassifierMatched(tr, e)[v.end];
    assert LostUntil(tr, e, v.end);
  }

  lemma DropMeansEventAtOne(tr: Trace, e: nat) returns (v: Event)
    requires tr.Shaped() && tr.OnlyResetInvalid() && e < tr.episodes && ResetDrop(tr, e)
    ensures v.episode == e && v.start == 1 && Qualifies(tr, v)
  {
    var end: nat :| 4 <= end < tr.frames && LostUntil(tr, e, end);
    var loss, matched := ClassifierLoss(tr, e), ClassifierMatched(tr, e);
    v := Event(e, 1, end, end);
    assert tr.Sample(0, e) && !loss[0];
    assert tr.Sample(end, e) && matched[end] && !loss[end];
    forall t | 1 <= t < end ensures loss[t] {
      assert tr.Sample(t, e) && !matched[t];
    }
    assert IsRun(loss, Run(1, end));
  }

  lemma {:induction false} KeepsAllIff(events: seq<Event>)
    ensures NotAtFrameOne(events) == events <==> forall v :: v in events ==> v.start != 1
  {
    NotAtFrameOneShrinks(events);
    if events == [] {
    } else {
      KeepsAllIff(events[1..]);
      NotAtFrameOneShrinks(events[1..]);
      assert events == [events[0]] + events[1..];
    }
  }

  lemma {:induction false} NotAtFrameOneShrinks(events: seq<Event>)
    ensures |NotAtFrameOne(events)| <= |events|
  {
    if events == [] {
    } else {
      NotAtFrameOneShrinks(events[1..]);
    }
  }

  /** Main fact: with only the reset frame invalid, the two detectors list the same events iff no episode has
      expected force on the reset frame followed by a loss from frame 1 that re-contacts at frame 4 or later. */
  lemma DetectorsEqualIff(tr: Trace)
    requires tr.Shaped() && tr.OnlyResetInvalid()
    ensures AuditEvents(tr, tr.episodes) == ClassifierEvents(tr, tr.episodes)
       <==> forall e :: 0 <= e < tr.episodes ==> !ResetDrop(tr, e)
  {
    var events := ClassifierEvents(tr, tr.episodes);
    DetectorsAgree(tr, tr.episodes);
    KeepsAllIff(events);
    if e :| 0 <= e < tr.episodes && ResetDrop(tr, e) {
      var v := DropMeansEventAtOne(tr, e);
      ClassifierListed(tr, tr.episodes, v);
    } else {
      forall v | v in events ensures v.start != 1 {
        ClassifierListed(tr, tr.episodes, v);
        if v.start == 1 {
          EventAtOneMeansDrop(tr, v);
        }
      }
    }
  }

  /** A trace whose reset frame carries force before a loss of three frames. */
  function ResetForceTrace(): (tr: Trace)
    ensures tr.frames == 5 && tr.episodes == tr.fingers == 1
  {
    Trace(5, 1, 1,
      seq(5, t => [0.01]),
      seq(5, t => [[t == 0 || t == 4]]),
      seq(5, t => [t != 0]),
      seq(5, t => [[if t == 0 || t == 4 then 1.0 else 0.0]]))
  }

  lemma ResetForceShape()
    ensures ResetForceTrace().Shaped() && ResetForceTrace().OnlyResetInvalid()
  {
  }

  lemma ResetForceFrame(tr: Trace, t: nat)
    requires tr == ResetForceTrace() && tr.Shaped() && t < 5
    ensures AnyExpected(tr, t) && tr.valid[t][0] == (t != 0)
    ensures RawMatch(tr, t, 0) == (t == 0 || t == 4)
    ensures ExpectedForce(tr, t, 0, 1) == if t == 0 || t == 4 then 1.0 else 0.0
  {
    assert tr.Expected(t, 0);
    assert ExpectedForce(tr, t, 0, 0) == 0.0;
  }

  lemma ResetForceMasks(tr: Trace)
    requires tr == ResetForceTrace() && tr.Shaped()
    ensures forall t :: 0 <= t < 5 ==> ClassifierMatched(tr, 0)[t] == (t == 4)
    ensures forall t :: 0 <= t < 5 ==> ClassifierLoss(tr, 0)[t] == (1 <= t <= 3)
    ensures ForceSeries(tr, 0)[0] == 1.0
  {
    forall t | 0 <= t < 5
      ensures ClassifierMatched(tr, 0)[t] == (t == 4) && ClassifierLoss(tr, 0)[t] == (1 <= t <= 3)
    {
      ResetForceFrame(tr, t);
    }
    ResetForceFrame(tr, 0);
  }

  /** The reset frame's force makes the classifier report an event that the audit drops. */
  lemma {:induction false} DetectorsDifferAtFrameOne()
    ensures ResetForceTrace().Shaped() && ResetForceTrace().OnlyResetInvalid()
    ensures Event(0, 1, 4, 4) in ClassifierEpisode(ResetForceTrace(), 0)
    ensures AuditEpisode(ResetForceTrace(), 0) != ClassifierEpisode(ResetForceTrace(), 0)
  {
    var tr := ResetForceTrace();
    ResetForceShape();
    ResetForceMasks(tr);
    var loss, matched, force := ClassifierLoss(tr, 0), ClassifierMatched(tr, 0), ForceSeries(tr, 0);
    LossIsReported(loss, matched, force);
    EpisodesAgree(tr, 0);
    KeptNeverAtOne(ClassifierEpisode(tr, 0), Event(0, 1, 4, 4));
  }

  lemma LossIsReported(loss: Mask, matched: Mask, force: seq<real>)
    requires |loss| == |matched| == |force| == 5 && force[0] > 0.0
    requires forall t :: 0 <= t < 5 ==> loss[t] == (1 <= t <= 3) && matched[t] == (t == 4)
    ensures Event(0, 1, 4, 4) in ClassifierSelect(matched, force, 0, Runs(loss))
  {
    assert IsRun(loss, Run(1, 4));
    RunsAreRuns(loss);
    SelectedEvents(matched, force, 0, Runs(loss), Event(0, 1, 4, 4));
  }

  lemma {:induction false} KeptNeverAtOne(events: seq<Event>, v: Event)
    ensures v in NotAtFrameOne(events) <==> v in events && v.start != 1
  {
    if events == [] {
    } else {
      KeptNeverAtOne(events[1..], v);
    }
  }
}
