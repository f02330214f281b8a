/** The persistent windows of the V3 per-finger contact audit, and the persistent recall they amount to. */
module PersistentWindows {
  import opened Basics
  import opened Masks
  import opened MaximalRuns
  import opened RunEncoders
  import opened Persistence
  import opened ContactTrace
  import opened ContactWindows

  /** One window: a persistent stretch of expected contact, and what contact there was in it. */
  datatype PersistentWindow = PersistentWindow(
    episode: nat, finger: nat, start: nat, end: nat, length: int, coverage: real, longestMissingGap: int,
    firstContact: Option<nat>, lastContact: Option<nat>, recontacts: seq<nat>)

  function Negated(m: Mask): (r: Mask)
    ensures |r| == |m| && forall i :: 0 <= i < |r| ==> r[i] == !m[i]
  {
    seq(|m|, i requires 0 <= i < |m| => !m[i])
  }

  function Shifted(s: seq<nat>, start: nat): (r: seq<nat>)
    ensures |r| == |s| && forall k :: 0 <= k < |r| ==> r[k] == start + s[k]
  {
    seq(|s|, k requires 0 <= k < |s| => start + s[k])
  }

  /** Frames of the window with contact whose predecessor in the window has none. */
  function Recontacting(present: Mask): (m: Mask)
    ensures |m| == |present|
  {
    And(present, Delayed(Negated(present)))
  }

  // The fields of a window, over its own slice of the contact series.

  function Coverage(present: Mask): real
    requires present != []
  {
    Count(present) as real / |present| as real
  }

  function LongestGap(present: Mask): int {
    Longest(Runs(Negated(present)))
  }

  function FirstContact(present: Mask, start: nat): Option<nat> {
    var hits := FlatNonzero(present, |present|);
    if hits == [] then None else Some(start + hits[0])
  }

  function LastContact(present: Mask, start: nat): Option<nat> {
    var hits := FlatNonzero(present, |present|);
    if hits == [] then None else Some(start + hits[|hits| - 1])
  }

  function Recontacts(present: Mask, start: nat): seq<nat> {
    Shifted(FlatNonzero(Recontacting(present), |present|), start)
  }

  function WindowAt(contact: Mask, e: nat, f: nat, r: Run): PersistentWindow
    requires r.start < r.end <= |contact|
  {
    var present := contact[r.start..r.end];
    PersistentWindow(e, f, r.start, r.end, r.end - r.start, Coverage(present), LongestGap(present),
                     FirstContact(present, r.start), LastContact(present, r.start), Recontacts(present, r.start))
  }

  /** The persistent expected frames of a finger. */
  function Lasting(tr: Trace, f: nat): (m: Mask)
    requires tr.Shaped() && f < tr.fingers
    ensures |m| == tr.frames
  {
    Persistent(tr.ExpectedMask(f), PERSISTENT_STEPS)
  }

  predicate Fit(rs: seq<Run>, length: nat) {
    forall k :: 0 <= k < |rs| ==> rs[k].start < rs[k].end <= length
  }

  lemma RunsFit(m: Mask)
    ensures Fit(Runs(m), |m|)
  {
    RunsAreRuns(m);
    assert forall k :: 0 <= k < |Runs(m)| ==> Runs(m)[k] in Runs(m);
  }

  function WindowsAt(contact: Mask, e: nat, f: nat, rs: seq<Run>): (ws: seq<PersistentWindow>)
    requires Fit(rs, |contact|)
    ensures |ws| == |rs| && forall k :: 0 <= k < |rs| ==> ws[k] == WindowAt(contact, e, f, rs[k])
  {
    seq(|rs|, k requires 0 <= k < |rs| => WindowAt(contact, e, f, rs[k]))
  }

  function LastingWindows(tr: Trace, e: nat, f: nat): seq<PersistentWindow>
    requires tr.Shaped() && e < tr.episodes && f < tr.fingers
  {
    RunsFit(Lasting(tr, f));
    WindowsAt(tr.ContactMask(e, f), e, f, Runs(Lasting(tr, f)))
  }

  function FingerLists(tr: Trace, e: nat): (lists: seq<seq<PersistentWindow>>)
    requires tr.Shaped() && e < tr.episodes
    ensures |lists| == tr.fingers && forall f :: 0 <= f < tr.fingers ==> lists[f] == LastingWindows(tr, e, f)
  {
    seq(tr.fingers, f requires 0 <= f < tr.fingers => LastingWindows(tr, e, f))
  }

  function EpisodeLists(tr: Trace): (lists: seq<seq<PersistentWindow>>)
    requires tr.Shaped()
    ensures |lists| == tr.episodes && forall e :: 0 <= e < tr.episodes ==> lists[e] == Concat(FingerLists(tr, e))
  {
    seq(tr.episodes, e requires 0 <= e < tr.episodes => Concat(FingerLists(tr, e)))
  }

  function AllLasting(tr: Trace): seq<PersistentWindow>
    requires tr.Shaped()
  {
    Concat(EpisodeLists(tr))
  }

  /** `_persistent_windows`: by episode, then by finger, then by frame. */
  method FindWindows(tr: Trace) returns (result: seq<PersistentWindow>)
    requires tr.Shaped()
    ensures result == AllLasting(tr)
  {
    result := [];
    ghost var lists := EpisodeLists(tr);
    for episode := 0 to tr.episodes
      invariant result == Concat(lists[..episode])
    {
      var found := EpisodeWindows(tr, episode);
      result := result + found;
      ConcatStep(lists, episode);
    }
    assert lists[..tr.episodes] == lists;
  }

  method EpisodeWindows(tr: Trace, episode: nat) returns (result: seq<PersistentWindow>)
    requires tr.Shaped() && episode < tr.episodes
    ensures result == Concat(FingerLists(tr, episode))
  {
    result := [];
    ghost var lists := FingerLists(tr, episode);
    for finger := 0 to tr.fingers
      invariant result == Concat(lists[..finger])
    {
      var lasting := PersistentMask(tr.ExpectedMask(finger), PERSISTENT_STEPS);
      var runs := FindRuns(lasting[..]);
      RunsFit(Lasting(tr, finger));
      var found := RunWindows(tr.ContactMask(episode, finger), episode, finger, runs);
      result := result + found;
      ConcatStep(lists, finger);
    }
    assert lists[..tr.fingers] == lists;
  }

  /** The innermost loop, over the runs of one episode and finger. */
  method RunWindows(contact: Mask, episode: nat, finger: nat, runs: seq<Run>) returns (result: seq<PersistentWindow>)
    requires Fit(runs, |contact|)
    ensures result == WindowsAt(contact, episode, finger, runs)
  {
    result := [];
    ghost var windows := WindowsAt(contact, episode, finger, runs);
    for k := 0 to |runs|
      invariant result == windows[..k]
    {
      result := result + [WindowAt(contact, episode, finger, runs[k])];
    }
  }

  // What a single window says.

  predicate SaysOf(w: PersistentWindow, contact: Mask, lo: nat, hi: nat, t: nat)
    requires lo <= t < hi <= |contact|
  {
    && (w.firstContact == Some(t) <==> contact[t] && NoneTrue(contact, lo, t))
    && (w.lastContact == Some(t) <==> contact[t] && NoneTrue(contact, t + 1, hi))
    && (t in w.recontacts <==> lo < t && contact[t] && !contact[t - 1])
  }

  /** The contact fields of a window: its first and last contact are those of the trace, its re-contacts are the
      frames where contact comes back inside the window. */
  lemma WindowContacts(contact: Mask, e: nat, f: nat, r: Run, t: nat)
    requires r.start < r.end <= |contact| && r.start <= t < r.end
    ensures SaysOf(WindowAt(contact, e, f, r), contact, r.start, r.end, t)
  {
    SliceEnds(contact, r.start, r.end, t);
    RecontactFrames(contact, r.start, r.end, t);
  }

  lemma SliceEnds(m: Mask, lo: nat, hi: nat, t: nat)
    requires lo <= t < hi <= |m|
    ensures FirstContact(m[lo..hi], lo) == Some(t) <==> m[t] && NoneTrue(m, lo, t)
    ensures LastContact(m[lo..hi], lo) == Some(t) <==> m[t] && NoneTrue(m, t + 1, hi)
  {
    FirstAndLastIndex(m[lo..hi], t - lo);
    SliceFrames(m, lo, hi, t);
  }

  lemma SliceFrames(m: Mask, lo: nat, hi: nat, t: nat)
    requires lo <= t < hi <= |m|
    ensures var s := m[lo..hi];
      && s[t - lo] == m[t]
      && (NoneTrue(s, 0, t - lo) <==> NoneTrue(m, lo, t))
      && (NoneTrue(s, t - lo + 1, |s|) <==> NoneTrue(m, t + 1, hi))
  {
    var s := m[lo..hi];
    assert forall j :: lo <= j < hi ==> m[j] == s[j - lo];
    assert forall i :: 0 <= i < |s| ==> s[i] == m[lo + i];
  }

  lemma RecontactFrames(m: Mask, lo: nat, hi: nat, t: nat)
    requires lo <= t < hi <= |m|
    ensures t in Recontacts(m[lo..hi], lo) <==> lo < t && m[t] && !m[t - 1]
  {
    SlicePair(m, lo, hi, t);
    RecontactsIn(m[lo..hi], lo, t);
  }

  lemma RecontactsIn(present: Mask, start: nat, t: nat)
    requires start <= t < start + |present|
    ensures t in Recontacts(present, start) <==> start < t && present[t - start] && !present[t - start - 1]
  {
    RecontactingAt(present, t - start);
    RecontactsMember(present, start, t);
  }

  lemma SlicePair(m: Mask, lo: nat, hi: nat, t: nat)
    requires lo <= t < hi <= |m|
    ensures m[lo..hi][t - lo] == m[t] && (lo < t ==> m[lo..hi][t - lo - 1] == m[t - 1])
  {
  }

  lemma RecontactingAt(present: Mask, i: nat)
    requires i < |present|
    ensures Recontacting(present)[i] <==> 0 < i && present[i] && !present[i - 1]
  {
  }

  lemma RecontactsMember(present: Mask, start: nat, t: nat)
    requires start <= t < start + |present|
    ensures t in Recontacts(present, start) <==> Recontacting(present)[t - start]
  {
    ShiftedMember(FlatNonzero(Recontacting(present), |present|), start, t);
    IndexMember(Recontacting(present), t - start);
  }

  lemma IndexMember(m: Mask, i: nat)
    requires i < |m|
    ensures i in FlatNonzero(m, |m|) <==> m[i]
  {
    FlatNonzeroIndices(m, |m|);
  }

  lemma ShiftedMember(s: seq<nat>, start: nat, t: nat)
    requires start <= t
    ensures t in Shifted(s, start) <==> t - start in s
  {
    if t - start in s {
      var k :| 0 <= k < |s| && s[k] == t - start;
      assert Shifted(s, start)[k] == t;
    }
  }

  lemma FirstAndLastIndex(m: Mask, i: nat)
    requires i < |m|
    ensures var hits := FlatNonzero(m, |m|);
      && (hits != [] && hits[0] == i <==> m[i] && NoneTrue(m, 0, i))
      && (hits != [] && hits[|hits| - 1] == i <==> m[i] && NoneTrue(m, i + 1, |m|))
  {
    var hits := FlatNonzero(m, |m|);
    FlatNonzeroIndices(m, |m|);
    if m[i] {
      var k := IndexPosition(m, i);
      if hits[0] != i {
        assert m[hits[0]] && hits[0] < i;
      }
      if hits[|hits| - 1] != i {
        assert m[hits[|hits| - 1]] && i < hits[|hits| - 1];
      }
    }
    forall j | 0 <= j < |m| && m[j] ensures hits != [] && hits[0] <= j <= hits[|hits| - 1] {
      var k := IndexPosition(m, j);
    }
  }

  /** Re-contacts are one fewer than the gaps of the window iff it ends in a gap, else as many; the longest gap
      bounds each of them. */
  lemma RecontactsAreGaps(contact: Mask, e: nat, f: nat, r: Run)
    requires r.start < r.end <= |contact|
    ensures var gaps := Runs(Negated(contact[r.start..r.end]));
      var w := WindowAt(contact, e, f, r);
      && |w.recontacts| == |gaps| - (if contact[r.end - 1] then 0 else 1)
      && forall g :: g in gaps ==> g.Length() <= w.longestMissingGap
  {
    var present := contact[r.start..r.end];
    var missing := Negated(present);
    assert Recontacting(present) == AndNot(Delayed(missing), missing);
    FlatNonzeroIndices(Recontacting(present), |present|);
    EventCountsAreRuns(missing);
  }

  // What is listed, by the entries of the trace.

  /** Finger f is expected on the frames [lo, hi), three or more of them, and not on either neighbour. */
  ghost predicate ExpectedFrames(tr: Trace, f: nat, lo: nat, hi: nat)
    requires tr.Shaped() && f < tr.fingers
  {
    && lo + 3 <= hi <= tr.frames
    && (forall t :: lo <= t < hi ==> tr.distance[t][f] < 0.03)
    && (lo == 0 || !(tr.distance[lo - 1][f] < 0.03))
    && (hi == tr.frames || !(tr.distance[hi][f] < 0.03))
  }

  predicate Touches(tr: Trace, t: nat, e: nat, f: nat)
    requires tr.Shaped() && tr.Sample(t, e) && f < tr.fingers
  {
    tr.actual[t][e][f] && tr.valid[t][e]
  }

  ghost function TouchCount(tr: Trace, lo: nat, hi: nat, e: nat, f: nat): nat
    requires tr.Shaped() && hi <= tr.frames && e < tr.episodes && f < tr.fingers
  {
    |set t: nat | lo <= t < hi && tr.Sample(t, e) && Touches(tr, t, e, f)|
  }

  ghost predicate NoTouch(tr: Trace, lo: nat, hi: nat, e: nat, f: nat)
    requires tr.Shaped() && hi <= tr.frames && e < tr.episodes && f < tr.fingers
  {
    forall t: nat :: lo <= t < hi && tr.Sample(t, e) ==> !Touches(tr, t, e, f)
  }

  ghost predicate Placed(tr: Trace, w: PersistentWindow)
    requires tr.Shaped()
  {
    && w.episode < tr.episodes && w.finger < tr.fingers && ExpectedFrames(tr, w.finger, w.start, w.end)
    && w.length == w.end - w.start
  }

  /** Its coverage is the share of its frames with contact, and its gap the longest stretch of frames without. */
  ghost predicate Covers(tr: Trace, w: PersistentWindow)
    requires tr.Shaped() && Placed(tr, w)
  {
    && w.coverage * w.length as real == TouchCount(tr, w.start, w.end, w.episode, w.finger) as real
    && (forall lo: nat, hi: nat :: w.start <= lo <= hi <= w.end && NoTouch(tr, lo, hi, w.episode, w.finger) ==>
          hi - lo <= w.longestMissingGap)
    && exists lo: nat, hi: nat :: w.start <= lo <= hi <= w.end && NoTouch(tr, lo, hi, w.episode, w.finger)
         && hi - lo == w.longestMissingGap
  }

  /** Its first and last contact, and every frame where contact comes back, in order. */
  ghost predicate Contacts(tr: Trace, w: PersistentWindow)
    requires tr.Shaped() && Placed(tr, w)
  {
    var e, f := w.episode, w.finger;
    && (forall t: nat :: w.start <= t < w.end && tr.Sample(t, e) ==>
          && (w.firstContact == Some(t) <==> Touches(tr, t, e, f) && NoTouch(tr, w.start, t, e, f))
          && (w.lastContact == Some(t) <==> Touches(tr, t, e, f) && NoTouch(tr, t + 1, w.end, e, f))
          && (t in w.recontacts <==> w.start < t && Touches(tr, t, e, f) && NoTouch(tr, t - 1, t, e, f)))
    && (w.firstContact == None <==> NoTouch(tr, w.start, w.end, e, f))
    && (w.lastContact == None <==> NoTouch(tr, w.start, w.end, e, f))
    && (forall k :: 0 <= k < |w.recontacts| ==> w.start <= w.recontacts[k] < w.end)
    && forall j, k :: 0 <= j < k < |w.recontacts| ==> w.recontacts[j] < w.recontacts[k]
  }

  lemma RunsAreExpectedFrames(tr: Trace, f: nat, r: Run)
    requires tr.Shaped() && f < tr.fingers
    ensures r in Runs(Lasting(tr, f)) <==> ExpectedFrames(tr, f, r.start, r.end)
  {
    PersistentRun(tr.ExpectedMask(f), PERSISTENT_STEPS, r);
    ExpectedRun(tr, f, r);
  }

  lemma ExpectedRun(tr: Trace, f: nat, r: Run)
    requires tr.Shaped() && f < tr.fingers
    ensures IsRun(tr.ExpectedMask(f), r) && 3 <= r.Length() <==> ExpectedFrames(tr, f, r.start, r.end)
  {
    var expected := tr.ExpectedMask(f);
    assert forall t :: 0 <= t < tr.frames ==> expected[t] == (tr.distance[t][f] < 0.03);
  }

  lemma ContactIsTouch(tr: Trace, e: nat, f: nat, lo: nat, hi: nat)
    requires tr.Shaped() && e < tr.episodes && f < tr.fingers && lo <= hi <= tr.frames
    ensures forall t: nat :: t < tr.frames ==> tr.Sample(t, e) && tr.ContactMask(e, f)[t] == Touches(tr, t, e, f)
    ensures NoneTrue(tr.ContactMask(e, f), lo, hi) <==> NoTouch(tr, lo, hi, e, f)
    ensures CountIn(tr.ContactMask(e, f), lo, hi) == TouchCount(tr, lo, hi, e, f)
  {
    var contact := tr.ContactMask(e, f);
    forall t: nat | t < tr.frames ensures tr.Sample(t, e) && contact[t] == Touches(tr, t, e, f) {
      assert tr.Sample(t, e);
    }
    CountIsCardinality(contact, lo, hi);
    assert (set t: nat | lo <= t < hi && contact[t])
        == (set t: nat | lo <= t < hi && tr.Sample(t, e) && Touches(tr, t, e, f));
  }

  lemma GapOfSlice(m: Mask, lo: nat, hi: nat, gap: int)
    requires lo <= hi <= |m| && gap == LongestGap(m[lo..hi])
    ensures forall a: nat, b: nat :: lo <= a <= b <= hi && NoneTrue(m, a, b) ==> b - a <= gap
    ensures exists a: nat, b: nat :: lo <= a <= b <= hi && NoneTrue(m, a, b) && b - a == gap
  {
    var missing := Negated(m[lo..hi]);
    LongestIsMaximalInterval(missing);
    forall a: nat, b: nat | lo <= a <= b <= hi && NoneTrue(m, a, b) ensures b - a <= gap {
      assert AllTrue(missing, a - lo, b - lo);
    }
    var a, b :| 0 <= a <= b <= |missing| && AllTrue(missing, a, b) && b - a == Longest(Runs(missing));
    forall i | lo + a <= i < lo + b ensures !m[i] {
      assert missing[i - lo];
    }
    assert NoneTrue(m, lo + a, lo + b);
  }

  lemma WindowIsCovered(tr: Trace, e: nat, f: nat, r: Run)
    requires tr.Shaped() && e < tr.episodes && f < tr.fingers && ExpectedFrames(tr, f, r.start, r.end)
    ensures var w := WindowAt(tr.ContactMask(e, f), e, f, r); Placed(tr, w) && Covers(tr, w)
  {
    var contact := tr.ContactMask(e, f);
    var w := WindowAt(contact, e, f, r);
    WindowMeasures(w, contact, r);
    ContactIsTouch(tr, e, f, r.start, r.end);
    GapOfSlice(contact, r.start, r.end, w.longestMissingGap);
    forall lo: nat, hi: nat | r.start <= lo <= hi <= r.end
      ensures NoneTrue(contact, lo, hi) <==> NoTouch(tr, lo, hi, e, f)
    {
      ContactIsTouch(tr, e, f, lo, hi);
    }
    var lo: nat, hi: nat :| r.start <= lo <= hi <= r.end && NoneTrue(contact, lo, hi) && hi - lo == w.longestMissingGap;
    assert NoTouch(tr, lo, hi, e, f);
  }

  lemma NoContactAtAll(m: Mask, lo: nat, hi: nat)
    requires lo < hi <= |m|
    ensures FirstContact(m[lo..hi], lo) == None <==> NoneTrue(m, lo, hi)
    ensures LastContact(m[lo..hi], lo) == None <==> NoneTrue(m, lo, hi)
  {
    var s := m[lo..hi];
    FlatNonzeroIndices(s, |s|);
    var hits := FlatNonzero(s, |s|);
    assert forall i :: 0 <= i < |s| ==> s[i] == m[lo + i];
    if hits != [] {
      assert m[lo + hits[0]];
    }
    if t :| lo <= t < hi && m[t] {
      assert s[t - lo] && t - lo in hits;
    }
  }

  lemma RecontactsInOrder(present: Mask, start: nat)
    ensures var frames := Recontacts(present, start);
      && (forall k :: 0 <= k < |frames| ==> start <= frames[k] < start + |present|)
      && forall j, k :: 0 <= j < k < |frames| ==> frames[j] < frames[k]
  {
    FlatNonzeroIndices(Recontacting(present), |present|);
  }

  lemma WindowHasContacts(tr: Trace, e: nat, f: nat, r: Run)
    requires tr.Shaped() && e < tr.episodes && f < tr.fingers && ExpectedFrames(tr, f, r.start, r.end)
    ensures var w := WindowAt(tr.ContactMask(e, f), e, f, r); Placed(tr, w) && Contacts(tr, w)
  {
    var contact := tr.ContactMask(e, f);
    var w := WindowAt(contact, e, f, r);
    forall t: nat | r.start <= t < r.end
      ensures w.firstContact == Some(t) <==> Touches(tr, t, e, f) && NoTouch(tr, r.start, t, e, f)
      ensures w.lastContact == Some(t) <==> Touches(tr, t, e, f) && NoTouch(tr, t + 1, r.end, e, f)
      ensures t in w.recontacts <==> r.start < t && Touches(tr, t, e, f) && NoTouch(tr, t - 1, t, e, f)
    {
      WindowContacts(contact, e, f, r, t);
      ContactFrame(tr, e, f, w, r.start, r.end, t);
    }
    ContactIsTouch(tr, e, f, r.start, r.end);
    NoContactAtAll(contact, r.start, r.end);
    RecontactsInOrder(contact[r.start..r.end], r.start);
  }

  lemma ContactFrame(tr: Trace, e: nat, f: nat, w: PersistentWindow, lo: nat, hi: nat, t: nat)
    requires tr.Shaped() && e < tr.episodes && f < tr.fingers && lo <= t < hi <= tr.frames
    requires SaysOf(w, tr.ContactMask(e, f), lo, hi, t)
    ensures tr.Sample(t, e)
    ensures w.firstContact == Some(t) <==> Touches(tr, t, e, f) && NoTouch(tr, lo, t, e, f)
    ensures w.lastContact == Some(t) <==> Touches(tr, t, e, f) && NoTouch(tr, t + 1, hi, e, f)
    ensures t in w.recontacts <==> lo < t && Touches(tr, t, e, f) && NoTouch(tr, t - 1, t, e, f)
  {
    var contact := tr.ContactMask(e, f);
    ContactIsTouch(tr, e, f, lo, t);
    ContactIsTouch(tr, e, f, t + 1, hi);
    if lo < t {
      ContactIsTouch(tr, e, f, t - 1, t);
      assert NoneTrue(contact, t - 1, t) <==> !contact[t - 1];
    }
  }

  lemma MemberOfFinger(tr: Trace, e: nat, f: nat, w: PersistentWindow)
    requires tr.Shaped() && e < tr.episodes && f < tr.fingers
    ensures w in LastingWindows(tr, e, f) <==>
      && w.episode == e && w.finger == f && ExpectedFrames(tr, f, w.start, w.end)
      && w == WindowAt(tr.ContactMask(e, f), e, f, Run(w.start, w.end))
  {
    var runs, ws, contact := Runs(Lasting(tr, f)), LastingWindows(tr, e, f), tr.ContactMask(e, f);
    RunsFit(Lasting(tr, f));
    RunsAreExpectedFrames(tr, f, Run(w.start, w.end));
    if w in ws {
      var k :| 0 <= k < |ws| && ws[k] == w;
      assert w == WindowAt(contact, e, f, runs[k]) && runs[k] in runs && runs[k] == Run(w.start, w.end);
    }
    if Run(w.start, w.end) in runs && w == WindowAt(contact, e, f, Run(w.start, w.end)) {
      var k :| 0 <= k < |runs| && runs[k] == Run(w.start, w.end);
      assert ws[k] == w;
    }
  }

  lemma MemberOfEpisode(tr: Trace, e: nat, w: PersistentWindow)
    requires tr.Shaped() && e < tr.episodes
    ensures w in Concat(FingerLists(tr, e)) <==>
      w.episode == e && w.finger < tr.fingers && w in LastingWindows(tr, e, w.finger)
  {
    var lists := FingerLists(tr, e);
    ConcatMember(lists, w);
    if f: nat :| f < |lists| && w in lists[f] {
      MemberOfFinger(tr, e, f, w);
    }
  }

  lemma Member(tr: Trace, w: PersistentWindow)
    requires tr.Shaped()
    ensures w in AllLasting(tr) <==>
      w.episode < tr.episodes && w.finger < tr.fingers && w in LastingWindows(tr, w.episode, w.finger)
  {
    var lists := EpisodeLists(tr);
    ConcatMember(lists, w);
    if e: nat :| e < |lists| && w in lists[e] {
      MemberOfEpisode(tr, e, w);
    }
    if w.episode < tr.episodes {
      MemberOfEpisode(tr, w.episode, w);
    }
  }

  /** Main fact, contents: every listed window is a maximal stretch of three or more expected frames of its finger,
      and its fields are what the trace says of them. */
  lemma ListedIsDescribed(tr: Trace, w: PersistentWindow)
    requires tr.Shaped() && w in AllLasting(tr)
    ensures Placed(tr, w) && Covers(tr, w) && Contacts(tr, w)
  {
    Member(tr, w);
    MemberOfFinger(tr, w.episode, w.finger, w);
    WindowIsCovered(tr, w.episode, w.finger, Run(w.start, w.end));
    WindowHasContacts(tr, w.episode, w.finger, Run(w.start, w.end));
  }

  /** And every such stretch is listed, once for every episode. */
  lemma StretchIsListed(tr: Trace, e: nat, f: nat, lo: nat, hi: nat)
    requires tr.Shaped() && e < tr.episodes && f < tr.fingers && ExpectedFrames(tr, f, lo, hi)
    ensures exists w :: w in AllLasting(tr) && w.episode == e && w.finger == f && w.start == lo && w.end == hi
  {
    var w := WindowAt(tr.ContactMask(e, f), e, f, Run(lo, hi));
    MemberOfFinger(tr, e, f, w);
    Member(tr, w);
    assert w in AllLasting(tr);
  }

  function LastingKey(w: PersistentWindow): Key {
    (w.episode, w.finger, w.start)
  }

  lemma FingerOrdered(tr: Trace, e: nat, f: nat)
    requires tr.Shaped() && e < tr.episodes && f < tr.fingers
    ensures Ordered(LastingWindows(tr, e, f), LastingKey)
  {
    RunsAreRuns(Lasting(tr, f));
    RunsFit(Lasting(tr, f));
  }

  lemma EpisodeOrdered(tr: Trace, e: nat)
    requires tr.Shaped() && e < tr.episodes
    ensures Ordered(Concat(FingerLists(tr, e)), LastingKey)
  {
    var lists := FingerLists(tr, e);
    forall f: nat | f < tr.fingers ensures Ordered(lists[f], LastingKey) {
      FingerOrdered(tr, e, f);
    }
    forall f: nat, w: PersistentWindow | f < tr.fingers && w in lists[f] ensures w.episode == e && w.finger == f {
      MemberOfFinger(tr, e, f, w);
    }
    OrderedLists(lists, LastingKey);
  }

  /** Main fact, order: the list is strictly increasing by episode, then finger, then frame. */
  lemma LastingOrdered(tr: Trace)
    requires tr.Shaped()
    ensures Ordered(AllLasting(tr), LastingKey)
  {
    var lists := EpisodeLists(tr);
    forall e: nat | e < tr.episodes ensures Ordered(lists[e], LastingKey) {
      EpisodeOrdered(tr, e);
    }
    forall e: nat, w: PersistentWindow | e < tr.episodes && w in lists[e] ensures w.episode == e {
      MemberOfEpisode(tr, e, w);
    }
    OrderedLists(lists, LastingKey);
  }

  // What the windows of one episode and finger add up to.

  /** Summed length, and coverage weighted by length. */
  function SummedLength(ws: seq<PersistentWindow>): int {
    if ws == [] then 0 else ws[0].length + SummedLength(ws[1..])
  }

  function Held(w: PersistentWindow): real {
    w.coverage * w.length as real
  }

  function SummedContact(ws: seq<PersistentWindow>): real {
    if ws == [] then 0.0 else Held(ws[0]) + SummedContact(ws[1..])
  }

  function Ratio(k: real, n: int): Option<real> {
    if n == 0 then None else Some(k / n as real)
  }

  function WeightedCoverage(ws: seq<PersistentWindow>): Option<real> {
    Ratio(SummedContact(ws), SummedLength(ws))
  }

  lemma {:induction false} CountSlice(m: Mask, lo: nat, hi: nat, n: nat)
    requires lo + n <= hi <= |m|
    ensures CountIn(m[lo..hi], 0, n) == CountIn(m, lo, lo + n)
  {
    if n == 0 {
    } else {
      CountSlice(m, lo, hi, n - 1);
    }
  }

  lemma QuotientTimes(a: real, n: real)
    requires n != 0.0
    ensures a / n * n == a
  {
  }

  lemma WindowCount(m: Mask, lo: nat, hi: nat)
    requires lo <= hi <= |m|
    ensures Count(m[lo..hi]) == CountIn(m, lo, hi)
  {
    CountSlice(m, lo, hi, hi - lo);
  }

  lemma CoverageTimes(present: Mask, length: int, contacts: int)
    requires 0 < length == |present| && Count(present) == contacts
    ensures Coverage(present) * length as real == contacts as real
  {
    QuotientTimes(contacts as real, length as real);
  }

  /** The window has the length of its run, and its coverage times that length is the contact of the run. */
  ghost predicate Measures(w: PersistentWindow, contact: Mask, r: Run)
    requires r.start < r.end <= |contact|
  {
    w.length == r.Length() && Held(w) == CountIn(contact, r.start, r.end) as real
  }

  lemma WindowMeasures(w: PersistentWindow, contact: Mask, r: Run)
    requires r.start < r.end <= |contact|
    requires w.length == r.Length() && w.coverage == Coverage(contact[r.start..r.end])
    ensures Measures(w, contact, r)
  {
    WindowCount(contact, r.start, r.end);
    CoverageTimes(contact[r.start..r.end], r.Length(), CountIn(contact, r.start, r.end));
  }

  lemma {:induction false} SumsOfMeasured(ws: seq<PersistentWindow>, contact: Mask, rs: seq<Run>)
    requires Fit(rs, |contact|) && |ws| == |rs|
    requires forall k :: 0 <= k < |rs| ==> Measures(ws[k], contact, rs[k])
    ensures SummedLength(ws) == TotalLength(rs) && SummedContact(ws) == Covered(contact, rs) as real
  {
    if rs == [] {
    } else {
      SumsOfMeasured(ws[1..], contact, rs[1..]);
      assert Measures(ws[0], contact, rs[0]);
    }
  }

  lemma SumsOfRuns(contact: Mask, e: nat, f: nat, rs: seq<Run>)
    requires Fit(rs, |contact|)
    ensures SummedLength(WindowsAt(contact, e, f, rs)) == TotalLength(rs)
    ensures SummedContact(WindowsAt(contact, e, f, rs)) == Covered(contact, rs) as real
  {
    var ws := WindowsAt(contact, e, f, rs);
    forall k | 0 <= k < |rs| ensures Measures(ws[k], contact, rs[k]) {
      WindowMeasures(ws[k], contact, rs[k]);
    }
    SumsOfMeasured(ws, contact, rs);
  }

  /** The frames of a persistent window that the recall of a row counts: all but an invalid reset frame. */
  function Counted(tr: Trace, e: nat, f: nat): (m: Mask)
    requires tr.Shaped() && e < tr.episodes && f < tr.fingers
    ensures |m| == tr.frames
  {
    And(Lasting(tr, f), tr.UsableMask(e))
  }

  /** Main fact: the contact frames of the windows are the numerator of the persistent recall, and their lengths sum
      to the persistent expected frames, valid or not. */
  lemma WindowsConserveContact(tr: Trace, e: nat, f: nat)
    requires tr.Shaped() && e < tr.episodes && f < tr.fingers
    ensures SummedLength(LastingWindows(tr, e, f)) == Count(Lasting(tr, f))
    ensures SummedContact(LastingWindows(tr, e, f)) == Count(And(Counted(tr, e, f), tr.ContactMask(e, f))) as real
  {
    var lasting, contact := Lasting(tr, f), tr.ContactMask(e, f);
    RunsFit(lasting);
    SumsOfRuns(contact, e, f, Runs(lasting));
    TotalLengthIsCount(lasting, 0);
    CoveredIsCount(contact, lasting, 0);
    assert And(contact, lasting) == And(Counted(tr, e, f), contact);
  }

  /** The reset frame survives the filter: it and the two frames after it expect contact. */
  predicate ResetLasts(tr: Trace, f: nat)
    requires tr.Shaped() && f < tr.fingers
  {
    3 <= tr.frames && tr.Expected(0, f) && tr.Expected(1, f) && tr.Expected(2, f)
  }

  lemma ResetLastsIff(tr: Trace, f: nat)
    requires tr.Shaped() && f < tr.fingers && 0 < tr.frames
    ensures Lasting(tr, f)[0] <==> ResetLasts(tr, f)
  {
    var expected := tr.ExpectedMask(f);
    PersistentIsOpening(expected, PERSISTENT_STEPS, 0);
    if InWindow(expected, 3, 0) {
      var lo, hi :| 0 <= lo <= 0 < hi <= |expected| && AllTrue(expected, lo, hi) && hi - lo == 3;
      assert expected[0] && expected[1] && expected[2];
    }
    if ResetLasts(tr, f) {
      assert AllTrue(expected, 0, 3);
    }
  }

  /** Main fact: the lengths of the windows sum to the denominator of the persistent recall, plus one iff the reset
      frame survives the filter. */
  lemma LengthsAreDenominator(tr: Trace, e: nat, f: nat)
    requires tr.Shaped() && tr.OnlyResetInvalid() && e < tr.episodes && f < tr.fingers
    ensures SummedLength(LastingWindows(tr, e, f))
         == Count(Counted(tr, e, f)) + if ResetLasts(tr, f) then 1 else 0
  {
    var lasting, counted := Lasting(tr, f), Counted(tr, e, f);
    WindowsConserveContact(tr, e, f);
    if 0 < tr.frames {
      ResetLastsIff(tr, f);
      assert forall t :: 0 <= t < tr.frames ==> tr.Sample(t, e);
      CountSplit(lasting, 0, 1, tr.frames);
      CountSplit(counted, 0, 1, tr.frames);
      CountSame(lasting, counted, 1, tr.frames);
      assert CountIn(lasting, 0, 0) == 0 && CountIn(counted, 0, 0) == 0;
    }
  }

  lemma FewerFrames(tr: Trace, e: nat, f: nat)
    requires tr.Shaped() && tr.OnlyResetInvalid() && e < tr.episodes && f < tr.fingers && ResetLasts(tr, f)
    ensures 2 <= Count(Counted(tr, e, f))
  {
    var expected, counted := tr.ExpectedMask(f), Counted(tr, e, f);
    assert AllTrue(expected, 0, 3);
    forall t | 1 <= t < 3 ensures counted[t] {
      assert InWindow(expected, 3, t);
      PersistentIsOpening(expected, PERSISTENT_STEPS, t);
      assert tr.Sample(t, e);
    }
    CountSplit(counted, 0, 1, tr.frames);
    CountSplit(counted, 1, 3, tr.frames);
    CountUniform(counted, 1, 3);
  }

  lemma QuotientsEqualIff(k: real, d: real)
    requires d > 0.0
    ensures k / (d + 1.0) == k / d <==> k == 0.0
  {
    var x, y := k / (d + 1.0), k / d;
    QuotientTimes(k, d + 1.0);
    QuotientTimes(k, d);
    if x == y {
      assert x * (d + 1.0) == x * d + x;
    }
  }

  lemma RatiosEqualIff(k: nat, d: nat)
    requires 0 < d
    ensures Ratio(k as real, d + 1) == Ratio(k as real, d) <==> k == 0
  {
    QuotientsEqualIff(k as real, d as real);
  }

  /** No contact falls on a persistent expected frame. */
  predicate NoLastingContact(tr: Trace, e: nat, f: nat)
    requires tr.Shaped() && e < tr.episodes && f < tr.fingers
  {
    forall t :: 0 <= t < tr.frames && Lasting(tr, f)[t] ==> !tr.Contact(t, e, f)
  }

  lemma NoneCountedIff(tr: Trace, e: nat, f: nat)
    requires tr.Shaped() && e < tr.episodes && f < tr.fingers
    ensures Count(And(Counted(tr, e, f), tr.ContactMask(e, f))) == 0 <==> NoLastingContact(tr, e, f)
  {
    var hits := And(Counted(tr, e, f), tr.ContactMask(e, f));
    CountPositive(hits, 0, tr.frames);
    assert forall t :: 0 <= t < tr.frames ==> (hits[t] <==> Lasting(tr, f)[t] && tr.Contact(t, e, f));
  }

  /** Main fact: with only the reset frame invalid, the coverage of the windows weighted by their lengths is the
      persistent recall of the row iff the reset frame is in no window or no window holds contact. */
  lemma CoverageIsRecallIff(tr: Trace, e: nat, f: nat)
    requires tr.Shaped() && tr.OnlyResetInvalid() && e < tr.episodes && f < tr.fingers
    ensures WeightedCoverage(LastingWindows(tr, e, f)) == Recall(Counted(tr, e, f), tr.ContactMask(e, f))
       <==> !ResetLasts(tr, f) || NoLastingContact(tr, e, f)
  {
    var k, d := Count(And(Counted(tr, e, f), tr.ContactMask(e, f))), Count(Counted(tr, e, f));
    WindowsConserveContact(tr, e, f);
    LengthsAreDenominator(tr, e, f);
    NoneCountedIff(tr, e, f);
    RecallIsRatio(Counted(tr, e, f), tr.ContactMask(e, f));
    if ResetLasts(tr, f) {
      FewerFrames(tr, e, f);
      RatiosEqualIff(k, d);
    }
  }

  lemma RecallIsRatio(reference: Mask, actual: Mask)
    requires |reference| == |actual|
    ensures Recall(reference, actual) == Ratio(Count(And(reference, actual)) as real, Count(reference))
  {
  }

  /** Three expected frames of which the last has contact: coverage a third, recall a half. */
  function ResetWindowTrace(): (tr: Trace)
    ensures tr.frames == 3 && tr.episodes == tr.fingers == 1
  {
    Trace(3, 1, 1, seq(3, t => [0.01]), seq(3, t => [[t == 2]]), seq(3, t => [t != 0]), seq(3, t => [[0.0]]))
  }

  lemma ResetWindowHoldsContact()
    ensures var tr := ResetWindowTrace(); tr.Shaped() && ResetLasts(tr, 0) && !NoLastingContact(tr, 0, 0)
  {
    var tr := ResetWindowTrace();
    var expected := tr.ExpectedMask(0);
    assert AllTrue(expected, 0, 3) && InWindow(expected, 3, 2);
    PersistentIsOpening(expected, PERSISTENT_STEPS, 2);
    assert Lasting(tr, 0)[2] && tr.Contact(2, 0, 0);
  }

  lemma CoverageIsNotRecall()
    ensures ResetWindowTrace().Shaped() && ResetWindowTrace().OnlyResetInvalid()
    ensures var tr := ResetWindowTrace();
      WeightedCoverage(LastingWindows(tr, 0, 0)) != Recall(Counted(tr, 0, 0), tr.ContactMask(0, 0))
  {
    ResetWindowHoldsContact();
    CoverageIsRecallIff(ResetWindowTrace(), 0, 0);
  }
}
