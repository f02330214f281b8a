/** The V4 strict audit: what covers each required sample, and the flight events. */
module StrictAudit {
  import opened Basics
  import opened Masks
  import opened MaximalRuns
  import opened RunEncoders
  import opened Persistence
  import opened HandGroups

  // Per-finger rows. A sample is one (frame, replica) pair, after masking by validity.

  datatype Sample = Sample(required: seq<bool>, presence: seq<bool>)

  predicate WellFormed(s: Sample) {
    |s.required| == FINGER_COUNT && |s.presence| == BODY_COUNT
  }

  /** The five mutually exclusive masks of a per-finger row. */
  datatype Cover = OwnTip | SameFinger | CrossFinger | WristBase | FullyMissing

  predicate SameGroup(g: Groups, s: Sample, f: nat)
    requires Partition(g) && WellFormed(s) && f < FINGER_COUNT
  {
    exists b: nat :: b < BODY_COUNT && InGroup(g, f, b) && b != TipIndex(f) && s.presence[b]
  }

  predicate CrossGroup(g: Groups, s: Sample, f: nat)
    requires Partition(g) && WellFormed(s) && f < FINGER_COUNT
  {
    exists e: nat, b: nat :: e < FINGER_COUNT && b < BODY_COUNT && e != f && InGroup(g, e, b) && s.presence[b]
  }

  predicate CrossTip(s: Sample, f: nat)
    requires WellFormed(s) && f < FINGER_COUNT
  {
    exists e: nat :: e < FINGER_COUNT && e != f && s.presence[TipIndex(e)]
  }

  predicate AnyHand(s: Sample) {
    exists b: nat :: b < |s.presence| && s.presence[b]
  }

  /** The boolean expression of each class in `audit`. */
  predicate Covered(g: Groups, s: Sample, f: nat, c: Cover)
    requires Partition(g) && WellFormed(s) && f < FINGER_COUNT
  {
    var active, own := s.required[f], s.presence[TipIndex(f)];
    match c
    case OwnTip => active && own
    case SameFinger => active && !own && SameGroup(g, s, f)
    case CrossFinger => active && !own && !SameGroup(g, s, f) && CrossGroup(g, s, f)
    case WristBase => active && !own && !SameGroup(g, s, f) && !CrossGroup(g, s, f) && s.presence[g.wrist]
    case FullyMissing => active && !own && !SameGroup(g, s, f) && !CrossGroup(g, s, f) && !s.presence[g.wrist]
  }

  /** A present body is the own tip, a same-finger body, a cross-finger body or the wrist. */
  lemma BodyIsSomewhere(g: Groups, s: Sample, f: nat, b: nat)
    requires Partition(g) && WellFormed(s) && f < FINGER_COUNT && b < BODY_COUNT && s.presence[b]
    ensures s.presence[TipIndex(f)] || SameGroup(g, s, f) || CrossGroup(g, s, f) || s.presence[g.wrist]
  {
    if b != g.wrist {
      assert InSomeGroup(g, b);
      var e: nat :| e < |g.fingers| && InGroup(g, e, b);
    }
  }

  /** Fully missing means required while no hand body at all touches. */
  lemma FullyMissingIsNoHand(g: Groups, s: Sample, f: nat)
    requires Partition(g) && WellFormed(s) && f < FINGER_COUNT
    ensures Covered(g, s, f, FullyMissing) <==> s.required[f] && !AnyHand(s)
  {
    if AnyHand(s) {
      var b: nat :| b < |s.presence| && s.presence[b];
      BodyIsSomewhere(g, s, f, b);
    }
  }

  /** Every required sample has exactly one cover, and an unrequired one has none. */
  lemma ExactlyOneCover(g: Groups, s: Sample, f: nat) returns (c: Cover)
    requires Partition(g) && WellFormed(s) && f < FINGER_COUNT
    ensures s.required[f] ==> Covered(g, s, f, c)
    ensures forall d :: Covered(g, s, f, d) ==> s.required[f] && d == c
  {
    c := if s.presence[TipIndex(f)] then OwnTip
         else if SameGroup(g, s, f) then SameFinger
         else if CrossGroup(g, s, f) then CrossFinger
         else if s.presence[g.wrist] then WristBase
         else FullyMissing;
  }

  /** Substitution by another finger's tip is a special case of substitution by its group. */
  lemma CrossTipIsCrossGroup(g: Groups, s: Sample, f: nat)
    requires Partition(g) && WellFormed(s) && f < FINGER_COUNT && CrossTip(s, f)
    ensures CrossGroup(g, s, f)
  {
    var e: nat :| e < FINGER_COUNT && e != f && s.presence[TipIndex(e)];
    assert InGroup(g, e, TipIndex(e));
  }

  /** Main fact: the union of the fingers' fully-missing masks is the no-hand-contact flight mask. */
  lemma MissingUnionIsFlight(g: Groups, s: Sample)
    requires Partition(g) && WellFormed(s)
    ensures (exists f: nat :: f < FINGER_COUNT && Covered(g, s, f, FullyMissing))
       <==> (exists f: nat :: f < FINGER_COUNT && s.required[f]) && !AnyHand(s)
  {
    forall f: nat | f < FINGER_COUNT ensures Covered(g, s, f, FullyMissing) <==> s.required[f] && !AnyHand(s) {
      FullyMissingIsNoHand(g, s, f);
    }
    if exists f: nat :: f < FINGER_COUNT && s.required[f] && !AnyHand(s) {
      var f: nat :| f < FINGER_COUNT && s.required[f] && !AnyHand(s);
      assert Covered(g, s, f, FullyMissing);
    }
  }

  // The classes by the nearest body that touches.

  /** How near a body is to finger f: its tip, another of its bodies, another finger's, the wrist. */
  function BodyRank(g: Groups, f: nat, b: nat): nat
    requires f < FINGER_COUNT
  {
    if b == TipIndex(f) then 0 else if InGroup(g, f, b) then 1 else if b != g.wrist then 2 else 3
  }

  /** Some body of rank k touches and none of a lower one; for k = 4, no body touches. */
  ghost predicate NearestRank(g: Groups, s: Sample, f: nat, k: nat)
    requires WellFormed(s) && f < FINGER_COUNT
  {
    && (k < 4 ==> exists b: nat :: b < BODY_COUNT && s.presence[b] && BodyRank(g, f, b) == k)
    && forall b: nat :: b < BODY_COUNT && s.presence[b] ==> k <= BodyRank(g, f, b)
  }

  lemma BodyOfRank(g: Groups, s: Sample, f: nat, b: nat)
    requires Partition(g) && WellFormed(s) && f < FINGER_COUNT && b < BODY_COUNT && s.presence[b]
    ensures BodyRank(g, f, b) == 0 ==> s.presence[TipIndex(f)]
    ensures BodyRank(g, f, b) == 1 ==> SameGroup(g, s, f)
    ensures BodyRank(g, f, b) == 2 ==> CrossGroup(g, s, f)
    ensures BodyRank(g, f, b) == 3 ==> s.presence[g.wrist]
  {
    if BodyRank(g, f, b) == 2 {
      assert InSomeGroup(g, b);
      var e: nat :| e < |g.fingers| && InGroup(g, e, b);
    }
  }

  lemma RankOfBody(g: Groups, s: Sample, f: nat)
    requires Partition(g) && WellFormed(s) && f < FINGER_COUNT
    ensures s.presence[TipIndex(f)] ==> HasRank(g, s, f, 0)
    ensures SameGroup(g, s, f) ==> HasRank(g, s, f, 1)
    ensures CrossGroup(g, s, f) ==> HasRank(g, s, f, 2)
    ensures s.presence[g.wrist] ==> HasRank(g, s, f, 3)
  {
    assert InGroup(g, f, TipIndex(f)) && InSomeGroup(g, TipIndex(f));
    if CrossGroup(g, s, f) {
      var e: nat, b: nat :| e < FINGER_COUNT && b < BODY_COUNT && e != f && InGroup(g, e, b) && s.presence[b];
      assert InSomeGroup(g, b) && BodyRank(g, f, b) == 2;
    }
    if s.presence[g.wrist] {
      assert !InSomeGroup(g, g.wrist);
      assert !InGroup(g, f, g.wrist) && BodyRank(g, f, g.wrist) == 3;
    }
  }

  ghost predicate HasRank(g: Groups, s: Sample, f: nat, k: nat)
    requires WellFormed(s) && f < FINGER_COUNT
  {
    exists b: nat :: b < BODY_COUNT && s.presence[b] && BodyRank(g, f, b) == k
  }

  /** Which ranks are there. */
  lemma RanksPresent(g: Groups, s: Sample, f: nat)
    requires Partition(g) && WellFormed(s) && f < FINGER_COUNT
    ensures HasRank(g, s, f, 0) <==> s.presence[TipIndex(f)]
    ensures HasRank(g, s, f, 1) <==> SameGroup(g, s, f)
    ensures HasRank(g, s, f, 2) <==> CrossGroup(g, s, f)
    ensures HasRank(g, s, f, 3) <==> s.presence[g.wrist]
  {
    RankOfBody(g, s, f);
    forall b: nat | b < BODY_COUNT && s.presence[b]
      ensures BodyRank(g, f, b) == 0 ==> s.presence[TipIndex(f)]
      ensures BodyRank(g, f, b) == 1 ==> SameGroup(g, s, f)
      ensures BodyRank(g, f, b) == 2 ==> CrossGroup(g, s, f)
      ensures BodyRank(g, f, b) == 3 ==> s.presence[g.wrist]
    {
      BodyOfRank(g, s, f, b);
    }
  }

  lemma NearestIff(g: Groups, s: Sample, f: nat, k: nat)
    requires WellFormed(s) && f < FINGER_COUNT && k <= 4
    ensures NearestRank(g, s, f, k) <==>
      (k < 4 ==> HasRank(g, s, f, k)) && forall j: nat :: j < k ==> !HasRank(g, s, f, j)
  {
    if forall j: nat :: j < k ==> !HasRank(g, s, f, j) {
      forall b: nat | b < BODY_COUNT && s.presence[b] ensures k <= BodyRank(g, f, b) {
        assert HasRank(g, s, f, BodyRank(g, f, b));
      }
    }
  }

  /** Main fact, the five labels: a required sample has the label of the nearest body that touches. */
  lemma CoverIsNearestBody(g: Groups, s: Sample, f: nat)
    requires Partition(g) && WellFormed(s) && f < FINGER_COUNT
    ensures Covered(g, s, f, OwnTip) <==> s.required[f] && NearestRank(g, s, f, 0)
    ensures Covered(g, s, f, SameFinger) <==> s.required[f] && NearestRank(g, s, f, 1)
    ensures Covered(g, s, f, CrossFinger) <==> s.required[f] && NearestRank(g, s, f, 2)
    ensures Covered(g, s, f, WristBase) <==> s.required[f] && NearestRank(g, s, f, 3)
    ensures Covered(g, s, f, FullyMissing) <==> s.required[f] && NearestRank(g, s, f, 4)
  {
    RanksPresent(g, s, f);
    NearestIff(g, s, f, 0);
    NearestIff(g, s, f, 1);
    NearestIff(g, s, f, 2);
    NearestIff(g, s, f, 3);
    NearestIff(g, s, f, 4);
  }

  function ActiveMask(samples: seq<Sample>, f: nat): (m: Mask)
    requires f < FINGER_COUNT && forall k :: 0 <= k < |samples| ==> WellFormed(samples[k])
    ensures |m| == |samples|
  {
    seq(|samples|, k requires 0 <= k < |samples| => assert WellFormed(samples[k]); samples[k].required[f])
  }

  function CoverMask(g: Groups, samples: seq<Sample>, f: nat, c: Cover): (m: Mask)
    requires Partition(g) && f < FINGER_COUNT && forall k :: 0 <= k < |samples| ==> WellFormed(samples[k])
    ensures |m| == |samples|
    ensures forall k :: 0 <= k < |m| ==> m[k] == Covered(g, samples[k], f, c)
  {
    seq(|samples|, k requires 0 <= k < |samples| => Covered(g, samples[k], f, c))
  }

  /** A frame range split five ways is counted once by exactly one part. */
  lemma {:induction false} CountFive(whole: Mask, a: Mask, b: Mask, c: Mask, d: Mask, e: Mask, n: nat)
    requires n <= |whole| == |a| == |b| == |c| == |d| == |e|
    requires forall k :: 0 <= k < n ==> OneOf(whole[k], a[k], b[k], c[k], d[k], e[k])
    ensures CountIn(whole, 0, n) == CountIn(a, 0, n) + CountIn(b, 0, n) + CountIn(c, 0, n) + CountIn(d, 0, n)
                                + CountIn(e, 0, n)
  {
    if n == 0 {
    } else {
      CountFive(whole, a, b, c, d, e, n - 1);
      assert OneOf(whole[n - 1], a[n - 1], b[n - 1], c[n - 1], d[n - 1], e[n - 1]);
    }
  }

  function Bit(b: bool): nat { if b then 1 else 0 }

  predicate OneOf(whole: bool, a: bool, b: bool, c: bool, d: bool, e: bool) {
    Bit(whole) == Bit(a) + Bit(b) + Bit(c) + Bit(d) + Bit(e)
  }

  /** Main fact: the five counts of a finger's row sum to its required samples. */
  lemma CoverCountsSum(g: Groups, samples: seq<Sample>, f: nat)
    requires Partition(g) && f < FINGER_COUNT && forall k :: 0 <= k < |samples| ==> WellFormed(samples[k])
    ensures Count(ActiveMask(samples, f))
         == Count(CoverMask(g, samples, f, OwnTip)) + Count(CoverMask(g, samples, f, SameFinger))
          + Count(CoverMask(g, samples, f, CrossFinger)) + Count(CoverMask(g, samples, f, WristBase))
          + Count(CoverMask(g, samples, f, FullyMissing))
  {
    var a, b, c, d, e := CoverMask(g, samples, f, OwnTip), CoverMask(g, samples, f, SameFinger),
      CoverMask(g, samples, f, CrossFinger), CoverMask(g, samples, f, WristBase),
      CoverMask(g, samples, f, FullyMissing);
    var active := ActiveMask(samples, f);
    forall k | 0 <= k < |samples| ensures OneOf(active[k], a[k], b[k], c[k], d[k], e[k]) {
      OneCoverBit(g, samples[k], f);
    }
    CountFive(active, a, b, c, d, e, |samples|);
  }

  lemma OneCoverBit(g: Groups, s: Sample, f: nat)
    requires Partition(g) && WellFormed(s) && f < FINGER_COUNT
    ensures OneOf(s.required[f], Covered(g, s, f, OwnTip), Covered(g, s, f, SameFinger),
                  Covered(g, s, f, CrossFinger), Covered(g, s, f, WristBase), Covered(g, s, f, FullyMissing))
  {
    var c := ExactlyOneCover(g, s, f);
  }

  // _flight_events

  /** Frames by replicas, after masking by validity: required fingers and present bodies. */
  datatype HandTrace = HandTrace(frames: nat, replicas: nat, samples: seq<seq<Sample>>) {
    predicate Shaped() {
      && |samples| == frames
      && (forall t :: 0 <= t < frames ==> |samples[t]| == replicas)
      && (forall t, r :: 0 <= t < frames && 0 <= r < replicas ==> WellFormed(samples[t][r]))
    }
  }

  datatype Kind = NoTip | NoHand | TipLoss(finger: nat)

  datatype Flight = Flight(replica: nat, kind: Kind, start: nat, end: nat, recontact: nat)

  predicate AnyRequired(s: Sample) {
    exists f: nat :: f < |s.required| && s.required[f]
  }

  predicate NamedTip(s: Sample)
    requires WellFormed(s)
  {
    exists f: nat :: f < FINGER_COUNT && s.presence[TipIndex(f)]
  }

  /** The event mask of each kind. */
  predicate Missed(s: Sample, kind: Kind)
    requires WellFormed(s) && (kind.TipLoss? ==> kind.finger < FINGER_COUNT)
  {
    match kind
    case NoTip => AnyRequired(s) && !NamedTip(s)
    case NoHand => AnyRequired(s) && !AnyHand(s)
    case TipLoss(f) => s.required[f] && !s.presence[TipIndex(f)]
  }

  /** The contact that ends a loss of each kind. */
  predicate Target(s: Sample, kind: Kind)
    requires WellFormed(s) && (kind.TipLoss? ==> kind.finger < FINGER_COUNT)
  {
    match kind
    case TipLoss(f) => s.presence[TipIndex(f)]
    case _ => NamedTip(s)
  }

  predicate ValidKind(kind: Kind) { kind.TipLoss? ==> kind.finger < FINGER_COUNT }

  function MissedMask(tr: HandTrace, r: nat, kind: Kind): (m: Mask)
    requires tr.Shaped() && r < tr.replicas && ValidKind(kind)
    ensures |m| == tr.frames && forall t :: 0 <= t < tr.frames ==> m[t] == Missed(tr.samples[t][r], kind)
  {
    seq(tr.frames, t requires 0 <= t < tr.frames => Missed(tr.samples[t][r], kind))
  }

  function TargetMask(tr: HandTrace, r: nat, kind: Kind): (m: Mask)
    requires tr.Shaped() && r < tr.replicas && ValidKind(kind)
    ensures |m| == tr.frames && forall t :: 0 <= t < tr.frames ==> m[t] == Target(tr.samples[t][r], kind)
  {
    seq(tr.frames, t requires 0 <= t < tr.frames => Target(tr.samples[t][r], kind))
  }

  /** The first target contact from `from` on; the number of frames stands for None. */
  function FirstTrue(m: Mask, from: nat): (i: nat)
    requires from <= |m|
    ensures from <= i <= |m| && NoneTrue(m, from, i) && (i < |m| ==> m[i])
    decreases |m| - from
  {
    if from == |m| || m[from] then from else FirstTrue(m, from + 1)
  }

  /** The long runs among rs, each with its first later re-contact. */
  function FlightsOf(target: Mask, r: nat, kind: Kind, rs: seq<Run>): seq<Flight> {
    if rs == [] then []
    else
      (if PERSISTENT_STEPS <= rs[0].end - rs[0].start && rs[0].end <= |target|
       then [Flight(r, kind, rs[0].start, rs[0].end, FirstTrue(target, rs[0].end))] else [])
      + FlightsOf(target, r, kind, rs[1..])
  }

  const KIND_COUNT: nat := 7

  /** The order of the event_masks dictionary. */
  function KindAt(k: nat): (kind: Kind)
    requires k < KIND_COUNT
    ensures ValidKind(kind) && KindNumber(kind) == k
  {
    if k == 0 then NoTip else if k == 1 then NoHand else TipLoss(k - 2)
  }

  function KindNumber(kind: Kind): nat {
    match kind
    case NoTip => 0
    case NoHand => 1
    case TipLoss(f) => f + 2
  }

  function KindFlights(tr: HandTrace, r: nat, kind: Kind): seq<Flight>
    requires tr.Shaped() && r < tr.replicas && ValidKind(kind)
  {
    FlightsOf(TargetMask(tr, r, kind), r, kind, Runs(MissedMask(tr, r, kind)))
  }

  function KindLists(tr: HandTrace, r: nat): (lists: seq<seq<Flight>>)
    requires tr.Shaped() && r < tr.replicas
    ensures |lists| == KIND_COUNT && forall k :: 0 <= k < KIND_COUNT ==> lists[k] == KindFlights(tr, r, KindAt(k))
  {
    seq(KIND_COUNT, k requires 0 <= k < KIND_COUNT => KindFlights(tr, r, KindAt(k)))
  }

  function ReplicaLists(tr: HandTrace): (lists: seq<seq<Flight>>)
    requires tr.Shaped()
    ensures |lists| == tr.replicas && forall r :: 0 <= r < tr.replicas ==> lists[r] == Concat(KindLists(tr, r))
  {
    seq(tr.replicas, r requires 0 <= r < tr.replicas => Concat(KindLists(tr, r)))
  }

  function AllFlights(tr: HandTrace): seq<Flight>
    requires tr.Shaped()
  {
    Concat(ReplicaLists(tr))
  }

  /** `_flight_events`: by replica, then by kind, then by frame. */
  method FlightEvents(tr: HandTrace) returns (result: seq<Flight>)
    requires tr.Shaped()
    ensures result == AllFlights(tr)
  {
    result := [];
    ghost var lists := ReplicaLists(tr);
    for replica := 0 to tr.replicas
      invariant result == Concat(lists[..replica])
    {
      var found := ReplicaEvents(tr, replica);
      result := result + found;
      ConcatStep(lists, replica);
    }
    assert lists[..|lists|] == lists;
  }

  method ReplicaEvents(tr: HandTrace, replica: nat) returns (result: seq<Flight>)
    requires tr.Shaped() && replica < tr.replicas
    ensures result == Concat(KindLists(tr, replica))
  {
    result := [];
    ghost var lists := KindLists(tr, replica);
    for k := 0 to KIND_COUNT
      invariant result == Concat(lists[..k])
    {
      var kind := KindAt(k);
      var found := RunEvents(MissedMask(tr, replica, kind), TargetMask(tr, replica, kind), replica, kind);
      result := result + found;
      ConcatStep(lists, k);
    }
    assert lists[..KIND_COUNT] == lists;
  }

  /** What the k-th run adds to the events found before it. */
  lemma FlightsStep(target: Mask, r: nat, kind: Kind, rs: seq<Run>, k: nat, found: seq<Flight>)
    requires k < |rs| && rs[k].end <= |target|
    ensures found + FlightsOf(target, r, kind, rs[k..])
      == (if PERSISTENT_STEPS <= rs[k].end - rs[k].start
          then found + [Flight(r, kind, rs[k].start, rs[k].end, FirstTrue(target, rs[k].end))] else found)
         + FlightsOf(target, r, kind, rs[k + 1..])
  {
    assert rs[k..][0] == rs[k] && rs[k..][1..] == rs[k + 1..];
    var flight := Flight(r, kind, rs[k].start, rs[k].end, FirstTrue(target, rs[k].end));
    var picked := if PERSISTENT_STEPS <= rs[k].end - rs[k].start then [flight] else [];
    ConcatAssociative(found, picked, FlightsOf(target, r, kind, rs[k + 1..]));
    assert found + [] == found;
  }

  /** The loop over the runs of one event mask. */
  method RunEvents(missing: Mask, target: Mask, replica: nat, kind: Kind) returns (result: seq<Flight>)
    requires |missing| == |target|
    ensures result == FlightsOf(target, replica, kind, Runs(missing))
  {
    var runs := FindRuns(missing);
    RunsAreRuns(missing);
    result := [];
    ghost var all := FlightsOf(target, replica, kind, runs);
    assert runs[0..] == runs;
    for k := 0 to |runs|
      invariant result + FlightsOf(target, replica, kind, runs[k..]) == all
    {
      var start, end := runs[k].start, runs[k].end;
      assert runs[k] in runs;
      FlightsStep(target, replica, kind, runs, k, result);
      if end - start < PERSISTENT_STEPS {
        continue;
      }
      var recontact := NextContact(target, end);
      result := result + [Flight(replica, kind, start, end, recontact)];
    }
  }

  /** next((index for index in range(end, T) if target[index]), None), with T for None. */
  method NextContact(target: Mask, end: nat) returns (recontact: nat)
    requires end <= |target|
    ensures recontact == FirstTrue(target, end)
  {
    recontact := end;
    while recontact < |target| && !target[recontact]
      invariant end <= recontact <= |target| && FirstTrue(target, end) == FirstTrue(target, recontact)
    {
      recontact := recontact + 1;
    }
  }

  /** A long maximal run of a kind's mask, with its first later re-contact. */
  ghost predicate Reported(tr: HandTrace, v: Flight)
    requires tr.Shaped()
  {
    && v.replica < tr.replicas && ValidKind(v.kind)
    && IsRun(MissedMask(tr, v.replica, v.kind), Run(v.start, v.end))
    && PERSISTENT_STEPS <= v.end - v.start
    && v.recontact == FirstTrue(TargetMask(tr, v.replica, v.kind), v.end)
  }

  predicate Kept(target: Mask, r: nat, kind: Kind, rs: seq<Run>, v: Flight) {
    && v.replica == r && v.kind == kind && Run(v.start, v.end) in rs
    && PERSISTENT_STEPS <= v.end - v.start
    && v.end <= |target| && v.recontact == FirstTrue(target, v.end)
  }

  lemma {:induction false} FlightMembers(target: Mask, r: nat, kind: Kind, rs: seq<Run>, v: Flight)
    ensures v in FlightsOf(target, r, kind, rs) <==>
      Kept(target, r, kind, rs, v)
  {
    if rs == [] {
    } else {
      FlightMembers(target, r, kind, rs[1..], v);
    }
  }

  lemma KindMembers(tr: HandTrace, r: nat, kind: Kind, v: Flight)
    requires tr.Shaped() && r < tr.replicas && ValidKind(kind)
    ensures v in KindFlights(tr, r, kind) <==> v.replica == r && v.kind == kind && Reported(tr, v)
  {
    FlightMembers(TargetMask(tr, r, kind), r, kind, Runs(MissedMask(tr, r, kind)), v);
    RunsAreRuns(MissedMask(tr, r, kind));
  }

  lemma ReplicaMembers(tr: HandTrace, r: nat, v: Flight)
    requires tr.Shaped() && r < tr.replicas
    ensures v in Concat(KindLists(tr, r)) <==> v.replica == r && ValidKind(v.kind) && v in KindFlights(tr, r, v.kind)
  {
    var lists := KindLists(tr, r);
    ConcatMember(lists, v);
    if v in Concat(lists) {
      var k :| 0 <= k < KIND_COUNT && v in lists[k];
      KindMembers(tr, r, KindAt(k), v);
    }
    if v.replica == r && ValidKind(v.kind) {
      assert KindAt(KindNumber(v.kind)) == v.kind;
      assert lists[KindNumber(v.kind)] == KindFlights(tr, r, v.kind);
    }
  }

  /** The listed events are exactly the reported ones. */
  lemma FlightsAreReported(tr: HandTrace, v: Flight)
    requires tr.Shaped()
    ensures v in AllFlights(tr) <==> Reported(tr, v)
  {
    var lists := ReplicaLists(tr);
    ConcatMember(lists, v);
    if v in Concat(lists) {
      var r :| 0 <= r < |lists| && v in lists[r];
      ReplicaMembers(tr, r, v);
    }
    if v.replica < tr.replicas {
      ReplicaMembers(tr, v.replica, v);
      assert lists[v.replica] == Concat(KindLists(tr, v.replica));
      if ValidKind(v.kind) {
        KindMembers(tr, v.replica, v.kind, v);
      }
    }
  }

  // What is listed, by the entries of the trace.

  const TIPS: seq<nat> := [20, 4, 8, 16, 12]

  predicate TipTouches(s: Sample)
    requires WellFormed(s)
  {
    s.presence[4] || s.presence[8] || s.presence[12] || s.presence[16] || s.presence[20]
  }

  predicate Wanted(s: Sample)
    requires WellFormed(s)
  {
    s.required[0] || s.required[1] || s.required[2] || s.required[3] || s.required[4]
  }

  /** What a loss of each kind lacks: any finger's tip, any body, or the one tip. */
  ghost predicate Lacks(s: Sample, kind: Kind)
    requires WellFormed(s) && ValidKind(kind)
  {
    match kind
    case NoTip => Wanted(s) && !TipTouches(s)
    case NoHand => Wanted(s) && forall b :: 0 <= b < 21 ==> !s.presence[b]
    case TipLoss(f) => s.required[f] && !s.presence[TIPS[f]]
  }

  predicate Regains(s: Sample, kind: Kind)
    requires WellFormed(s) && ValidKind(kind)
  {
    if kind.TipLoss? then s.presence[TIPS[kind.finger]] else TipTouches(s)
  }

  /** Three or more frames that lack it, no more on either side, and the first later frame that regains it. */
  ghost predicate IsFlight(tr: HandTrace, v: Flight)
    requires tr.Shaped()
  {
    && v.replica < tr.replicas && ValidKind(v.kind) && v.start + 3 <= v.end <= v.recontact <= tr.frames
    && (forall t :: v.start <= t < v.end ==> Lacks(tr.samples[t][v.replica], v.kind))
    && (v.start > 0 ==> !Lacks(tr.samples[v.start - 1][v.replica], v.kind))
    && (v.end < tr.frames ==> !Lacks(tr.samples[v.end][v.replica], v.kind))
    && (forall t :: v.end <= t < v.recontact ==> !Regains(tr.samples[t][v.replica], v.kind))
    && (v.recontact < tr.frames ==> Regains(tr.samples[v.recontact][v.replica], v.kind))
  }

  lemma SampleKinds(s: Sample, kind: Kind)
    requires WellFormed(s) && ValidKind(kind)
    ensures Missed(s, kind) <==> Lacks(s, kind)
    ensures Target(s, kind) <==> Regains(s, kind)
  {
    assert TipIndex(0) == 20 && TipIndex(1) == 4 && TipIndex(2) == 8 && TipIndex(3) == 16 && TipIndex(4) == 12;
    assert NamedTip(s) <==> TipTouches(s) by {
      if TipTouches(s) {
        var f: nat := if s.presence[20] then 0 else if s.presence[4] then 1 else if s.presence[8] then 2
                      else if s.presence[16] then 3 else 4;
        assert s.presence[TipIndex(f)];
      }
    }
    assert AnyRequired(s) <==> Wanted(s);
  }

  lemma FirstTrueIs(m: Mask, from: nat, i: nat)
    requires from <= i <= |m| && NoneTrue(m, from, i) && (i < |m| ==> m[i])
    ensures FirstTrue(m, from) == i
  {
    assert !(FirstTrue(m, from) < i) && !(i < FirstTrue(m, from));
  }

  lemma LongRunIff(missed: Mask, target: Mask, a: nat, b: nat, c: nat)
    requires |missed| == |target|
    ensures IsRun(missed, Run(a, b)) && PERSISTENT_STEPS <= b - a && c == FirstTrue(target, b) <==>
      && a + 3 <= b <= c <= |missed| && AllTrue(missed, a, b) && NoneTrue(target, b, c)
      && (a > 0 ==> !missed[a - 1]) && (b < |missed| ==> !missed[b]) && (c < |target| ==> target[c])
  {
    if b <= c <= |target| && NoneTrue(target, b, c) && (c < |target| ==> target[c]) {
      FirstTrueIs(target, b, c);
    }
  }

  lemma ReportedIsFlight(tr: HandTrace, v: Flight)
    requires tr.Shaped()
    ensures Reported(tr, v) <==> IsFlight(tr, v)
  {
    if v.replica < tr.replicas && ValidKind(v.kind) {
      var missed, target := MissedMask(tr, v.replica, v.kind), TargetMask(tr, v.replica, v.kind);
      forall t: nat | t < tr.frames
        ensures missed[t] == Lacks(tr.samples[t][v.replica], v.kind)
             && target[t] == Regains(tr.samples[t][v.replica], v.kind)
      {
        SampleKinds(tr.samples[t][v.replica], v.kind);
      }
      LongRunIff(missed, target, v.start, v.end, v.recontact);
    }
  }

  /** Main fact, contents: an event is listed iff it is such a loss. */
  lemma FlightListed(tr: HandTrace, v: Flight)
    requires tr.Shaped()
    ensures v in AllFlights(tr) <==> IsFlight(tr, v)
  {
    FlightsAreReported(tr, v);
    ReportedIsFlight(tr, v);
  }

  function FlightKey(v: Flight): Key {
    (v.replica, match v.kind case NoTip => 0 case NoHand => 1 case TipLoss(f) => 2 + f, v.start)
  }

  lemma {:induction false} FlightsOfOrdered(target: Mask, r: nat, kind: Kind, rs: seq<Run>)
    requires Separated(rs) && forall k :: 0 <= k < |rs| ==> rs[k].start < rs[k].end
    ensures Ordered(FlightsOf(target, r, kind, rs), FlightKey)
  {
    if rs == [] {
    } else {
      var head := FlightsOf(target, r, kind, [rs[0]]);
      var tail := FlightsOf(target, r, kind, rs[1..]);
      FlightsOfOrdered(target, r, kind, rs[1..]);
      FlightMembersOfOne(target, r, kind, rs[0]);
      forall x, y | x in head && y in tail ensures KeyLess(FlightKey(x), FlightKey(y)) {
        FlightMembers(target, r, kind, rs[1..], y);
        var k :| 0 <= k < |rs[1..]| && rs[1..][k] == Run(y.start, y.end);
        assert rs[k + 1] == rs[1..][k];
      }
      OrderedConcat(head, tail, FlightKey);
      assert [rs[0]][1..] == [];
    }
  }

  lemma FlightMembersOfOne(target: Mask, r: nat, kind: Kind, run: Run)
    ensures |FlightsOf(target, r, kind, [run])| <= 1
    ensures forall x :: x in FlightsOf(target, r, kind, [run]) ==>
      x.replica == r && x.kind == kind && x.start == run.start
  {
    assert [run][1..] == [];
  }

  lemma KindOrdered(tr: HandTrace, r: nat, kind: Kind)
    requires tr.Shaped() && r < tr.replicas && ValidKind(kind)
    ensures Ordered(KindFlights(tr, r, kind), FlightKey)
    ensures forall v :: v in KindFlights(tr, r, kind) ==> v.replica == r && v.kind == kind
  {
    var m := MissedMask(tr, r, kind);
    RunsAreRuns(m);
    assert forall k :: 0 <= k < |Runs(m)| ==> Runs(m)[k] in Runs(m);
    FlightsOfOrdered(TargetMask(tr, r, kind), r, kind, Runs(m));
    forall v | v in KindFlights(tr, r, kind) ensures v.replica == r && v.kind == kind {
      KindMembers(tr, r, kind, v);
    }
  }

  lemma ReplicaOrdered(tr: HandTrace, r: nat)
    requires tr.Shaped() && r < tr.replicas
    ensures Ordered(Concat(KindLists(tr, r)), FlightKey)
  {
    var lists := KindLists(tr, r);
    forall k: nat | k < KIND_COUNT
      ensures Ordered(lists[k], FlightKey)
      ensures forall v: Flight :: v in lists[k] ==> v.replica == r && v.kind == KindAt(k)
    {
      KindOrdered(tr, r, KindAt(k));
    }
    OrderedLists(lists, FlightKey);
  }

  /** Main fact, order: the list is strictly increasing by replica, then kind (no tip, no hand, the fingers' tips), then
      frame. */
  lemma FlightsOrdered(tr: HandTrace)
    requires tr.Shaped()
    ensures Ordered(AllFlights(tr), FlightKey)
  {
    var lists := ReplicaLists(tr);
    forall r: nat | r < tr.replicas
      ensures Ordered(lists[r], FlightKey) && forall v: Flight :: v in lists[r] ==> v.replica == r
    {
      ReplicaOrdered(tr, r);
      forall v: Flight | v in lists[r] ensures v.replica == r {
        ReplicaMembers(tr, r, v);
      }
    }
    OrderedLists(lists, FlightKey);
  }

  lemma NoHandImpliesNoTip(tr: HandTrace, r: nat)
    requires tr.Shaped() && r < tr.replicas
    ensures Subset(MissedMask(tr, r, NoHand), MissedMask(tr, r, NoTip))
    ensures TargetMask(tr, r, NoHand) == TargetMask(tr, r, NoTip)
    ensures forall t :: 0 <= t < tr.frames && MissedMask(tr, r, NoTip)[t] ==> !TargetMask(tr, r, NoTip)[t]
  {
  }

  /** Main fact: every listed no-hand flight lies in exactly one listed no-tip flight of its replica, and
      the two name the same re-contact. */
  lemma NoHandNestsInNoTip(tr: HandTrace, v: Flight) returns (w: Flight)
    requires tr.Shaped() && v in AllFlights(tr) && v.kind == NoHand
    ensures w in AllFlights(tr) && w.kind == NoTip && w.replica == v.replica
    ensures w.start <= v.start && v.end <= w.end && w.recontact == v.recontact
    ensures forall u :: u in AllFlights(tr) && u.kind == NoTip && u.replica == v.replica ==>
      u.start <= v.start && v.end <= u.end ==> u == w
  {
    FlightsAreReported(tr, v);
    NoHandImpliesNoTip(tr, v.replica);
    w := Enclosing(MissedMask(tr, v.replica, NoHand), MissedMask(tr, v.replica, NoTip),
                   TargetMask(tr, v.replica, NoTip), v);
    FlightsAreReported(tr, w);
    forall u | u in AllFlights(tr) && u.kind == NoTip && u.replica == v.replica && u.start <= v.start && v.end <= u.end
      ensures u == w
    {
      FlightsAreReported(tr, u);
      CoveringRunIsUnique(MissedMask(tr, v.replica, NoTip), v.start, Run(u.start, u.end));
      CoveringRunIsUnique(MissedMask(tr, v.replica, NoTip), v.start, Run(w.start, w.end));
    }
  }

  lemma Enclosing(inner: Mask, outer: Mask, target: Mask, v: Flight) returns (w: Flight)
    requires Subset(inner, outer) && |target| == |outer|
    requires forall t :: 0 <= t < |outer| && outer[t] ==> !target[t]
    requires IsRun(inner, Run(v.start, v.end)) && v.recontact == FirstTrue(target, v.end)
    ensures w.replica == v.replica && w.kind == NoTip
    ensures IsRun(outer, Run(w.start, w.end)) && w.start <= v.start && v.end <= w.end
    ensures w.recontact == FirstTrue(target, w.end) == v.recontact
  {
    RunsNest(inner, outer, Run(v.start, v.end));
    var q :| IsRun(outer, q) && Run(v.start, v.end).Inside(q);
    FirstTrueSkips(target, v.end, q.end);
    w := Flight(v.replica, NoTip, q.start, q.end, FirstTrue(target, q.end));
  }

  lemma {:induction false} FirstTrueSkips(m: Mask, a: nat, b: nat)
    requires a <= b <= |m| && NoneTrue(m, a, b)
    ensures FirstTrue(m, a) == FirstTrue(m, b)
    decreases b - a
  {
    if b <= a {
    } else {
      FirstTrueSkips(m, a + 1, b);
    }
  }
}
