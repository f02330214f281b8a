/** Loss windows, event counts and recalls of the V3 per-finger contact audit. */
module ContactWindows {
  import opened Basics
  import opened Masks
  import opened MaximalRuns
  import opened RunEncoders
  import opened Persistence
  import opened ContactTrace

  // _event_counts

  /** np.r_[False, m[:-1]]: the mask one frame later. */
  function Delayed(m: Mask): (d: Mask)
    ensures |d| == |m| && forall i :: 0 <= i < |d| ==> d[i] == (0 < i && m[i - 1])
  {
    seq(|m|, i requires 0 <= i < |m| => 0 < i && m[i - 1])
  }

  /** `_event_counts`: onsets of missing contact, and frames that re-contact. */
  function EventCounts(missing: Mask): (int, int) {
    (Count(AndNot(missing, Delayed(missing))), Count(AndNot(Delayed(missing), missing)))
  }

  predicate OnsetAt(m: Mask, k: nat)
    requires k < |m|
  {
    m[k] && (k == 0 || !m[k - 1])
  }

  lemma {:induction false} OnsetsAreRuns(m: Mask, onsets: Mask, i: nat)
    requires |onsets| == |m| && forall k :: 0 <= k < |m| ==> onsets[k] == OnsetAt(m, k)
    requires i <= |m| && (i == 0 || i == |m| || !m[i - 1] || !m[i])
    ensures CountIn(onsets, i, |m|) == |RunsFrom(m, i)|
    decreases |m| - i
  {
    if i == |m| {
    } else if !m[i] {
      OnsetsAreRuns(m, onsets, i + 1);
      CountSplit(onsets, i, i + 1, |m|);
      assert !onsets[i];
      CountUniform(onsets, i, i + 1);
    } else {
      var e := RunEnd(m, i + 1);
      OnsetsAreRuns(m, onsets, e);
      CountSplit(onsets, i, i + 1, |m|);
      CountUniform(onsets, i, i + 1);
      CountSplit(onsets, i + 1, e, |m|);
      CountUniform(onsets, i + 1, e);
    }
  }

  lemma {:induction false} OnsetsBalanceRecontacts(m: Mask, n: nat)
    requires n <= |m|
    ensures CountIn(AndNot(m, Delayed(m)), 0, n)
         == CountIn(AndNot(Delayed(m), m), 0, n) + if 0 < n && m[n - 1] then 1 else 0
  {
    if n == 0 {
    } else {
      OnsetsBalanceRecontacts(m, n - 1);
    }
  }

  /** Main fact: loss events are the maximal runs; re-contacts are one fewer iff the last frame is missing. */
  lemma {:induction false} EventCountsAreRuns(missing: Mask)
    ensures EventCounts(missing).0 == |Runs(missing)|
    ensures EventCounts(missing).1 == |Runs(missing)| - if missing != [] && missing[|missing| - 1] then 1 else 0
  {
    OnsetsAreRuns(missing, AndNot(missing, Delayed(missing)), 0);
    OnsetsBalanceRecontacts(missing, |missing|);
  }

  /** The V4 audit's own re-contact loop, sum(not loss[i] and loss[i-1] for i in range(1, T)). */
  method CountRecontacts(loss: Mask) returns (count: nat)
    ensures count == EventCounts(loss).1
  {
    count := 0;
    ghost var recontacts := AndNot(Delayed(loss), loss);
    var index := 1;
    while index < |loss|
      invariant 1 <= index && (index <= |loss| || |loss| == 0)
      invariant count == CountIn(recontacts, 0, if index <= |loss| then index else 0)
    {
      count := count + if !loss[index] && loss[index - 1] then 1 else 0;
      index := index + 1;
    }
  }

  // _floating_windows

  datatype FloatingWindow = FloatingWindow(
    episode: nat, finger: nat, start: nat, end: nat, length: int,
    despiteStrong: bool, persistentLoss: bool, strongFrames: nat, ambiguousFrames: nat)

  function Missing(tr: Trace, e: nat, f: nat): (m: Mask)
    requires tr.Shaped() && e < tr.episodes && f < tr.fingers
    ensures |m| == tr.frames
  {
    AndNot(And(tr.ExpectedMask(f), tr.UsableMask(e)), tr.ContactMask(e, f))
  }

  function WindowOf(strong: Mask, ambiguous: Mask, e: nat, f: nat, r: Run): FloatingWindow
    requires r.start <= r.end <= |strong| == |ambiguous|
  {
    var strongCount := CountIn(strong, r.start, r.end);
    var ambiguousCount := CountIn(ambiguous, r.start, r.end);
    FloatingWindow(e, f, r.start, r.end, r.end - r.start, strongCount != 0,
                   r.end - r.start >= PERSISTENT_STEPS, strongCount, ambiguousCount)
  }

  function MapWindows(strong: Mask, ambiguous: Mask, e: nat, f: nat, rs: seq<Run>): (ws: seq<FloatingWindow>)
    requires |strong| == |ambiguous|
    requires forall k :: 0 <= k < |rs| ==> rs[k].start <= rs[k].end <= |strong|
    ensures |ws| == |rs| && forall k :: 0 <= k < |rs| ==> ws[k] == WindowOf(strong, ambiguous, e, f, rs[k])
  {
    if rs == [] then []
    else [WindowOf(strong, ambiguous, e, f, rs[0])] + MapWindows(strong, ambiguous, e, f, rs[1..])
  }

  lemma MissingRuns(tr: Trace, e: nat, f: nat)
    requires tr.Shaped() && e < tr.episodes && f < tr.fingers
    ensures forall k :: 0 <= k < |Runs(Missing(tr, e, f))| ==> IsRun(Missing(tr, e, f), Runs(Missing(tr, e, f))[k])
  {
    var runs := Runs(Missing(tr, e, f));
    RunsAreRuns(Missing(tr, e, f));
    assert forall k :: 0 <= k < |runs| ==> runs[k] in runs;
  }

  function WindowsOf(tr: Trace, e: nat, f: nat): seq<FloatingWindow>
    requires tr.Shaped() && e < tr.episodes && f < tr.fingers
  {
    MissingRuns(tr, e, f);
    MapWindows(tr.StrongMask(f), tr.AmbiguousMask(f), e, f, Runs(Missing(tr, e, f)))
  }

  function FingerLists(tr: Trace, e: nat): (lists: seq<seq<FloatingWindow>>)
    requires tr.Shaped() && e < tr.episodes
    ensures |lists| == tr.fingers && forall f :: 0 <= f < tr.fingers ==> lists[f] == WindowsOf(tr, e, f)
  {
    seq(tr.fingers, f requires 0 <= f < tr.fingers => WindowsOf(tr, e, f))
  }

  function EpisodeLists(tr: Trace): (lists: seq<seq<FloatingWindow>>)
    requires tr.Shaped()
    ensures |lists| == tr.episodes && forall e :: 0 <= e < tr.episodes ==> lists[e] == Concat(FingerLists(tr, e))
  {
    seq(tr.episodes, e requires 0 <= e < tr.episodes => Concat(FingerLists(tr, e)))
  }

  function AllWindows(tr: Trace): seq<FloatingWindow>
    requires tr.Shaped()
  {
    Concat(EpisodeLists(tr))
  }

  /** `_floating_windows`: by episode, then by finger, then by frame. */
  method FloatingWindows(tr: Trace) returns (result: seq<FloatingWindow>)
    requires tr.Shaped()
    ensures result == AllWindows(tr)
  {
    result := [];
    ghost var lists := EpisodeLists(tr);
    for episode := 0 to tr.episodes
      invariant result == Concat(lists[..episode])
    {
      result := AppendEpisode(tr, episode, result);
      ConcatStep(lists, episode);
    }
    assert lists[..tr.episodes] == lists;
  }

  method AppendEpisode(tr: Trace, episode: nat, before: seq<FloatingWindow>) returns (result: seq<FloatingWindow>)
    requires tr.Shaped() && episode < tr.episodes
    ensures result == before + Concat(FingerLists(tr, episode))
  {
    result := before;
    ghost var lists := FingerLists(tr, episode);
    for finger := 0 to tr.fingers
      invariant result == before + Concat(lists[..finger])
    {
      result := AppendWindows(tr, episode, finger, result);
      ConcatAssociative(before, Concat(lists[..finger]), lists[finger]);
      ConcatStep(lists, finger);
    }
    assert lists[..tr.fingers] == lists;
  }

  /** The innermost loop of `_floating_windows`, for one episode and finger. */
  method AppendWindows(tr: Trace, episode: nat, finger: nat, before: seq<FloatingWindow>)
    returns (result: seq<FloatingWindow>)
    requires tr.Shaped() && episode < tr.episodes && finger < tr.fingers
    ensures result == before + WindowsOf(tr, episode, finger)
  {
    var strong, ambiguous := tr.StrongMask(finger), tr.AmbiguousMask(finger);
    var runs := FindRuns(Missing(tr, episode, finger));
    MissingRuns(tr, episode, finger);
    result := AppendMapped(strong, ambiguous, episode, finger, runs, before);
  }

  method AppendMapped(strong: Mask, ambiguous: Mask, episode: nat, finger: nat, runs: seq<Run>,
                      before: seq<FloatingWindow>)
    returns (result: seq<FloatingWindow>)
    requires |strong| == |ambiguous|
    requires forall k :: 0 <= k < |runs| ==> runs[k].start <= runs[k].end <= |strong|
    ensures result == before + MapWindows(strong, ambiguous, episode, finger, runs)
  {
    result := before;
    ghost var windows := MapWindows(strong, ambiguous, episode, finger, runs);
    for k := 0 to |runs|
      invariant result == before + windows[..k]
    {
      result := result + [WindowOf(strong, ambiguous, episode, finger, runs[k])];
    }
  }

  // What is listed, by the entries of the trace.

  /** Finger f is expected at a valid sample and does not touch. */
  predicate MissingAt(tr: Trace, t: nat, e: nat, f: nat)
    requires tr.Shaped() && tr.Sample(t, e) && f < tr.fingers
  {
    tr.distance[t][f] < 0.03 && tr.valid[t][e] && !tr.actual[t][e][f]
  }

  /** The frames [lo, hi) are missing, and neither neighbour is. */
  ghost predicate MissingFrames(tr: Trace, e: nat, f: nat, lo: nat, hi: nat)
    requires tr.Shaped() && e < tr.episodes && f < tr.fingers
  {
    && lo < hi <= tr.frames
    && (forall t :: lo <= t < hi ==> tr.Sample(t, e) && MissingAt(tr, t, e, f))
    && (lo == 0 || (tr.Sample(lo - 1, e) && !MissingAt(tr, lo - 1, e, f)))
    && (hi == tr.frames || (tr.Sample(hi, e) && !MissingAt(tr, hi, e, f)))
  }

  /** Everything a window says. */
  ghost predicate Describes(tr: Trace, w: FloatingWindow)
    requires tr.Shaped()
  {
    && w.episode < tr.episodes && w.finger < tr.fingers && MissingFrames(tr, w.episode, w.finger, w.start, w.end)
    && w.length == w.end - w.start
    && w.strongFrames == |set t: nat | w.start <= t < w.end && tr.distance[t][w.finger] <= 0.02|
    && w.ambiguousFrames == |set t: nat | w.start <= t < w.end && 0.02 < tr.distance[t][w.finger] < 0.03|
    && (w.despiteStrong <==> exists t :: w.start <= t < w.end && tr.distance[t][w.finger] <= 0.02)
    && (w.persistentLoss <==> 3 <= w.length)
  }

  lemma MissingFramesAreRuns(tr: Trace, e: nat, f: nat, r: Run)
    requires tr.Shaped() && e < tr.episodes && f < tr.fingers
    ensures IsRun(Missing(tr, e, f), r) <==> MissingFrames(tr, e, f, r.start, r.end)
  {
    var m := Missing(tr, e, f);
    forall t | 0 <= t < tr.frames ensures tr.Sample(t, e) && m[t] == MissingAt(tr, t, e, f) {
      assert tr.Sample(t, e);
    }
  }

  lemma StrongFrames(tr: Trace, f: nat, lo: nat, hi: nat)
    requires tr.Shaped() && f < tr.fingers && lo <= hi <= tr.frames
    ensures CountIn(tr.StrongMask(f), lo, hi) == |set t: nat | lo <= t < hi && tr.distance[t][f] <= 0.02|
    ensures CountIn(tr.StrongMask(f), lo, hi) != 0 <==> exists t :: lo <= t < hi && tr.distance[t][f] <= 0.02
  {
    var strong := tr.StrongMask(f);
    CountIsCardinality(strong, lo, hi);
    CountPositive(strong, lo, hi);
    assert forall t :: 0 <= t < tr.frames ==> strong[t] == (tr.distance[t][f] <= 0.02);
    assert (set t: nat | lo <= t < hi && strong[t]) == (set t: nat | lo <= t < hi && tr.distance[t][f] <= 0.02);
  }

  lemma AmbiguousFrames(tr: Trace, f: nat, lo: nat, hi: nat)
    requires tr.Shaped() && f < tr.fingers && lo <= hi <= tr.frames
    ensures CountIn(tr.AmbiguousMask(f), lo, hi) == |set t: nat | lo <= t < hi && 0.02 < tr.distance[t][f] < 0.03|
  {
    var ambiguous := tr.AmbiguousMask(f);
    CountIsCardinality(ambiguous, lo, hi);
    assert forall t :: 0 <= t < tr.frames ==> ambiguous[t] == (0.02 < tr.distance[t][f] < 0.03);
    assert (set t: nat | lo <= t < hi && ambiguous[t])
        == (set t: nat | lo <= t < hi && 0.02 < tr.distance[t][f] < 0.03);
  }

  lemma WindowIsDescribed(tr: Trace, w: FloatingWindow)
    requires tr.Shaped() && w.episode < tr.episodes && w.finger < tr.fingers
    requires IsRun(Missing(tr, w.episode, w.finger), Run(w.start, w.end))
    ensures Describes(tr, w) <==>
      w == WindowOf(tr.StrongMask(w.finger), tr.AmbiguousMask(w.finger), w.episode, w.finger, Run(w.start, w.end))
  {
    MissingFramesAreRuns(tr, w.episode, w.finger, Run(w.start, w.end));
    StrongFrames(tr, w.finger, w.start, w.end);
    AmbiguousFrames(tr, w.finger, w.start, w.end);
  }

  lemma FingerWindowListed(tr: Trace, e: nat, f: nat, w: FloatingWindow)
    requires tr.Shaped() && e < tr.episodes && f < tr.fingers
    ensures w in WindowsOf(tr, e, f) <==> w.episode == e && w.finger == f && Describes(tr, w)
  {
    var runs, ws := Runs(Missing(tr, e, f)), WindowsOf(tr, e, f);
    var strong, ambiguous := tr.StrongMask(f), tr.AmbiguousMask(f);
    RunsAreRuns(Missing(tr, e, f));
    MissingRuns(tr, e, f);
    if w in ws {
      var k :| 0 <= k < |ws| && ws[k] == w;
      assert w == WindowOf(strong, ambiguous, e, f, runs[k]);
      WindowIsDescribed(tr, w);
    }
    if w.episode == e && w.finger == f && Describes(tr, w) {
      MissingFramesAreRuns(tr, e, f, Run(w.start, w.end));
      WindowIsDescribed(tr, w);
      var k :| 0 <= k < |runs| && runs[k] == Run(w.start, w.end);
      assert ws[k] == w;
    }
  }

  lemma WindowNamesItsFinger(tr: Trace, e: nat, f: nat, w: FloatingWindow)
    requires tr.Shaped() && e < tr.episodes && f < tr.fingers && w in WindowsOf(tr, e, f)
    ensures w.episode == e && w.finger == f
  {
  }

  lemma EpisodeMembers(tr: Trace, e: nat, w: FloatingWindow)
    requires tr.Shaped() && e < tr.episodes
    ensures w in Concat(FingerLists(tr, e)) <==>
      w.episode == e && w.finger < tr.fingers && w in WindowsOf(tr, e, w.finger)
  {
    var lists := FingerLists(tr, e);
    ConcatMember(lists, w);
    if f: nat :| f < |lists| && w in lists[f] {
      WindowNamesItsFinger(tr, e, f, w);
    }
  }

  lemma Members(tr: Trace, w: FloatingWindow)
    requires tr.Shaped()
    ensures w in AllWindows(tr) <==>
      w.episode < tr.episodes && w.finger < tr.fingers && w in WindowsOf(tr, w.episode, w.finger)
  {
    var lists := EpisodeLists(tr);
    ConcatMember(lists, w);
    if e: nat :| e < |lists| && w in lists[e] {
      EpisodeMembers(tr, e, w);
    }
    if w.episode < tr.episodes {
      EpisodeMembers(tr, w.episode, w);
    }
  }

  /** Main fact, contents: a window is listed iff its frames are a maximal stretch of missing contact of its own
      episode and finger and its counts and flags are those of that stretch. */
  lemma WindowListed(tr: Trace, w: FloatingWindow)
    requires tr.Shaped()
    ensures w in AllWindows(tr) <==> Describes(tr, w)
  {
    Members(tr, w);
    if w.episode < tr.episodes && w.finger < tr.fingers {
      FingerWindowListed(tr, w.episode, w.finger, w);
    }
  }

  function WindowKey(w: FloatingWindow): Key {
    (w.episode, w.finger, w.start)
  }

  lemma FingerWindowsOrdered(tr: Trace, e: nat, f: nat)
    requires tr.Shaped() && e < tr.episodes && f < tr.fingers
    ensures Ordered(WindowsOf(tr, e, f), WindowKey)
  {
    RunsAreRuns(Missing(tr, e, f));
    MissingRuns(tr, e, f);
  }

  lemma EpisodeOrdered(tr: Trace, e: nat)
    requires tr.Shaped() && e < tr.episodes
    ensures Ordered(Concat(FingerLists(tr, e)), WindowKey)
  {
    var lists := FingerLists(tr, e);
    forall f: nat | f < tr.fingers ensures Ordered(lists[f], WindowKey) {
      FingerWindowsOrdered(tr, e, f);
    }
    forall f: nat, w: FloatingWindow | f < tr.fingers && w in lists[f] ensures w.episode == e && w.finger == f {
      WindowNamesItsFinger(tr, e, f, w);
    }
    OrderedLists(lists, WindowKey);
  }

  /** Main fact, order: the list is strictly increasing by episode, then finger, then frame; so no window is listed
      twice. */
  lemma WindowsOrdered(tr: Trace)
    requires tr.Shaped()
    ensures Ordered(AllWindows(tr), WindowKey)
  {
    var lists := EpisodeLists(tr);
    forall e: nat | e < tr.episodes ensures Ordered(lists[e], WindowKey) {
      EpisodeOrdered(tr, e);
    }
    forall e: nat, w: FloatingWindow | e < tr.episodes && w in lists[e] ensures w.episode == e {
      EpisodeMembers(tr, e, w);
    }
    OrderedLists(lists, WindowKey);
  }

  // What the windows conserve.

  /** Summed length, strong frames and ambiguous frames of a list of windows. */
  function Totals(ws: seq<FloatingWindow>): (int, int, int) {
    if ws == [] then (0, 0, 0)
    else
      var rest := Totals(ws[1..]);
      (ws[0].length + rest.0, ws[0].strongFrames + rest.1, ws[0].ambiguousFrames + rest.2)
  }

  /** Frames of g inside the given runs. */
  function Covered(g: Mask, rs: seq<Run>): int
    requires forall k :: 0 <= k < |rs| ==> rs[k].start <= rs[k].end <= |g|
  {
    if rs == [] then 0 else CountIn(g, rs[0].start, rs[0].end) + Covered(g, rs[1..])
  }

  lemma {:induction false} CoveredIsCount(g: Mask, m: Mask, i: nat)
    requires |g| == |m| && i <= |m| && (i == 0 || i == |m| || !m[i - 1] || !m[i])
    ensures forall k :: 0 <= k < |RunsFrom(m, i)| ==> RunsFrom(m, i)[k].start <= RunsFrom(m, i)[k].end <= |g|
    ensures Covered(g, RunsFrom(m, i)) == CountIn(And(g, m), i, |m|)
    decreases |m| - i
  {
    if i == |m| {
    } else if !m[i] {
      CoveredIsCount(g, m, i + 1);
      CountSplit(And(g, m), i, i + 1, |m|);
    } else {
      var e := RunEnd(m, i + 1);
      CoveredIsCount(g, m, e);
      CountSplit(And(g, m), i, e, |m|);
      CountSame(g, And(g, m), i, e);
      assert RunsFrom(m, i)[1..] == RunsFrom(m, e);
    }
  }

  lemma {:induction false} CountSame(a: Mask, b: Mask, lo: nat, hi: nat)
    requires lo <= hi <= |a| == |b|
    requires forall i :: lo <= i < hi ==> a[i] == b[i]
    ensures CountIn(a, lo, hi) == CountIn(b, lo, hi)
    decreases hi
  {
    if hi <= lo {
    } else {
      CountSame(a, b, lo, hi - 1);
    }
  }

  lemma {:induction false} LengthTotal(ws: seq<FloatingWindow>, rs: seq<Run>)
    requires |ws| == |rs| && forall k :: 0 <= k < |rs| ==> ws[k].length == rs[k].Length()
    ensures Totals(ws).0 == TotalLength(rs)
  {
    if rs == [] {
    } else {
      LengthTotal(ws[1..], rs[1..]);
    }
  }

  lemma {:induction false} StrongTotal(ws: seq<FloatingWindow>, strong: Mask, rs: seq<Run>)
    requires |ws| == |rs| && forall k :: 0 <= k < |rs| ==> rs[k].start <= rs[k].end <= |strong|
    requires forall k :: 0 <= k < |rs| ==> ws[k].strongFrames == CountIn(strong, rs[k].start, rs[k].end)
    ensures Totals(ws).1 == Covered(strong, rs)
  {
    if rs == [] {
    } else {
      StrongTotal(ws[1..], strong, rs[1..]);
    }
  }

  lemma {:induction false} AmbiguousTotal(ws: seq<FloatingWindow>, ambiguous: Mask, rs: seq<Run>)
    requires |ws| == |rs| && forall k :: 0 <= k < |rs| ==> rs[k].start <= rs[k].end <= |ambiguous|
    requires forall k :: 0 <= k < |rs| ==> ws[k].ambiguousFrames == CountIn(ambiguous, rs[k].start, rs[k].end)
    ensures Totals(ws).2 == Covered(ambiguous, rs)
  {
    if rs == [] {
    } else {
      AmbiguousTotal(ws[1..], ambiguous, rs[1..]);
    }
  }

  lemma TotalsOfRuns(strong: Mask, ambiguous: Mask, e: nat, f: nat, rs: seq<Run>)
    requires |strong| == |ambiguous|
    requires forall k :: 0 <= k < |rs| ==> rs[k].start <= rs[k].end <= |strong|
    ensures Totals(MapWindows(strong, ambiguous, e, f, rs))
         == (TotalLength(rs), Covered(strong, rs), Covered(ambiguous, rs))
  {
    var ws := MapWindows(strong, ambiguous, e, f, rs);
    LengthTotal(ws, rs);
    StrongTotal(ws, strong, rs);
    AmbiguousTotal(ws, ambiguous, rs);
  }

  /** Main fact: per episode and finger the windows hold every expected, valid, missing frame once, and
      split it into strong and ambiguous frames without loss; there is one window per loss event. */
  lemma WindowsConserveMissing(tr: Trace, e: nat, f: nat)
    requires tr.Shaped() && e < tr.episodes && f < tr.fingers
    ensures var missing := Missing(tr, e, f);
      && Totals(WindowsOf(tr, e, f)) == (
           Count(missing), Count(And(tr.StrongMask(f), missing)), Count(And(tr.AmbiguousMask(f), missing)))
      && Count(missing) == Count(And(tr.StrongMask(f), missing)) + Count(And(tr.AmbiguousMask(f), missing))
      && |WindowsOf(tr, e, f)| == EventCounts(missing).0
  {
    var missing := Missing(tr, e, f);
    MissingRuns(tr, e, f);
    TotalsOfRuns(tr.StrongMask(f), tr.AmbiguousMask(f), e, f, Runs(missing));
    TotalLengthIsCount(missing, 0);
    CoveredIsCount(tr.StrongMask(f), missing, 0);
    CoveredIsCount(tr.AmbiguousMask(f), missing, 0);
    CountPartition(missing, And(tr.StrongMask(f), missing), And(tr.AmbiguousMask(f), missing), 0, tr.frames);
    EventCountsAreRuns(missing);
  }

  /** Every single window splits its length into strong and ambiguous frames, and is flagged strong
      exactly when it holds a strong frame. */
  lemma WindowSplitsItsLength(tr: Trace, e: nat, f: nat, k: nat)
    requires tr.Shaped() && e < tr.episodes && f < tr.fingers && k < |WindowsOf(tr, e, f)|
    ensures var w := WindowsOf(tr, e, f)[k];
      && w.strongFrames + w.ambiguousFrames == w.length && 0 < w.length
      && (w.despiteStrong <==> exists t :: w.start <= t < w.end && t < tr.frames && tr.Strong(t, f))
  {
    MissingRuns(tr, e, f);
    RunSplitsItsLength(tr, e, f, Runs(Missing(tr, e, f))[k]);
  }

  lemma RunSplitsItsLength(tr: Trace, e: nat, f: nat, r: Run)
    requires tr.Shaped() && e < tr.episodes && f < tr.fingers && IsRun(Missing(tr, e, f), r)
    ensures CountIn(tr.StrongMask(f), r.start, r.end) + CountIn(tr.AmbiguousMask(f), r.start, r.end) == r.Length()
    ensures CountIn(tr.StrongMask(f), r.start, r.end) != 0 <==> exists t :: r.start <= t < r.end && tr.Strong(t, f)
  {
    var missing, strong := Missing(tr, e, f), tr.StrongMask(f);
    assert forall t :: r.start <= t < r.end ==> missing[t];
    CountPartition(missing, strong, tr.AmbiguousMask(f), r.start, r.end);
    CountUniform(missing, r.start, r.end);
    CountPositive(strong, r.start, r.end);
    assert forall t :: 0 <= t < tr.frames ==> strong[t] == tr.Strong(t, f);
  }

  lemma {:induction false} CountPositive(m: Mask, lo: nat, hi: nat)
    requires lo <= hi <= |m|
    ensures CountIn(m, lo, hi) != 0 <==> exists t :: lo <= t < hi && m[t]
    decreases hi
  {
    if hi <= lo {
    } else {
      CountPositive(m, lo, hi - 1);
    }
  }

  // _recall

  function Recall(reference: Mask, actual: Mask): Option<real>
    requires |reference| == |actual|
  {
    if Count(reference) == 0 then None
    else Some(Count(And(reference, actual)) as real / Count(reference) as real)
  }

  /** A recall is one minus the share of reference frames without contact. */
  lemma RecallIsOneMinusMissing(reference: Mask, actual: Mask)
    requires |reference| == |actual|
    ensures Recall(reference, actual) == if Count(reference) == 0 then None else
      Some(1.0 - Count(AndNot(reference, actual)) as real / Count(reference) as real)
  {
    CountPartition(reference, And(reference, actual), AndNot(reference, actual), 0, |reference|);
    if Count(reference) != 0 {
      ComplementQuotient(Count(And(reference, actual)) as real, Count(AndNot(reference, actual)) as real,
                         Count(reference) as real);
    }
  }

  lemma ComplementQuotient(hit: real, miss: real, all: real)
    requires hit + miss == all && all != 0.0
    ensures hit / all == 1.0 - miss / all
  {
    var x, y := hit / all, miss / all;
    assert x * all == hit && y * all == miss;
    CancelFactor(x, 1.0 - y, all);
  }

  /** Main fact: the three recalls of a row are determined by the three totals of its windows. */
  lemma RecallsFromWindows(tr: Trace, e: nat, f: nat)
    requires tr.Shaped() && e < tr.episodes && f < tr.fingers
    ensures var usable := tr.UsableMask(e);
      var totals := Totals(WindowsOf(tr, e, f));
      var present := tr.ContactMask(e, f);
      && Recall(And(tr.ExpectedMask(f), usable), present) == OneMinus(totals.0, Count(And(tr.ExpectedMask(f), usable)))
      && Recall(And(tr.StrongMask(f), usable), present) == OneMinus(totals.1, Count(And(tr.StrongMask(f), usable)))
      && Recall(And(tr.AmbiguousMask(f), usable), present)
           == OneMinus(totals.2, Count(And(tr.AmbiguousMask(f), usable)))
  {
    var usable, present := tr.UsableMask(e), tr.ContactMask(e, f);
    WindowsConserveMissing(tr, e, f);
    MissedShare(tr, tr.ExpectedMask(f), e, f);
    MissedShare(tr, tr.StrongMask(f), e, f);
    MissedShare(tr, tr.AmbiguousMask(f), e, f);
    assert And(tr.ExpectedMask(f), Missing(tr, e, f)) == Missing(tr, e, f);
  }

  lemma MissedShare(tr: Trace, evidence: Mask, e: nat, f: nat)
    requires tr.Shaped() && e < tr.episodes && f < tr.fingers
    requires Subset(evidence, tr.ExpectedMask(f))
    ensures Recall(And(evidence, tr.UsableMask(e)), tr.ContactMask(e, f))
         == OneMinus(Count(And(evidence, Missing(tr, e, f))), Count(And(evidence, tr.UsableMask(e))))
  {
    RecallIsOneMinusMissing(And(evidence, tr.UsableMask(e)), tr.ContactMask(e, f));
    assert AndNot(And(evidence, tr.UsableMask(e)), tr.ContactMask(e, f)) == And(evidence, Missing(tr, e, f));
  }

  function OneMinus(missed: int, expected: nat): Option<real> {
    if expected == 0 then None else Some(1.0 - missed as real / expected as real)
  }
}
