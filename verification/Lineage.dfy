/** Three scripts that each pick "the" checkpoint of a run out of one directory of checkpoints. */
module Lineage {
  import opened Basics

  /** The dictionary in progress.json: its frame counter, and whether it holds any other key. */
  datatype Fields = Fields(nextFrame: Option<int>, others: bool)

  datatype ProgressFile = Missing | Malformed | Parsed(fields: Fields)

  datatype Entry = Entry(name: string, isDir: bool, manifest: bool, mtime: int, progress: ProgressFile)

  datatype Selection = DefaultPath | Chosen(entry: Entry) | Raises

  /** What `progress.get("next_frame", -1)` gives, also for a file that is not there. */
  function Next(e: Entry): int {
    if e.progress.Parsed? && e.progress.fields.nextFrame.Some? then e.progress.fields.nextFrame.value else -1
  }

  /** An empty dictionary counts as no progress at all. */
  predicate HasProgress(e: Entry) {
    e.progress.Parsed? && (e.progress.fields.nextFrame.Some? || e.progress.fields.others)
  }

  predicate Resumable(e: Entry) {
    e.isDir && e.manifest
  }

  predicate Closable(e: Entry) {
    Resumable(e) && HasProgress(e)
  }

  // ----- The order of the keys -----

  predicate NameLess(a: string, b: string) {
    if b == "" then false
    else if a == "" then true
    else a[0] < b[0] || (a[0] == b[0] && NameLess(a[1..], b[1..]))
  }

  /** The dictionary order: at the first difference the smaller letter or the end of the name comes first. */
  lemma {:induction false} NameLessIff(a: string, b: string)
    ensures NameLess(a, b) <==> exists k :: 0 <= k < |b| && k <= |a| && a[..k] == b[..k] && (k == |a| || a[k] < b[k])
  {
    if b == "" {
    } else if a == "" {
      assert a[..0] == b[..0];
    } else {
      NameLessIff(a[1..], b[1..]);
      if a[0] < b[0] {
        assert a[..0] == b[..0];
      } else if a[0] == b[0] {
        if k :| 0 <= k < |b[1..]| && k <= |a[1..]| && a[1..][..k] == b[1..][..k]
               && (k == |a[1..]| || a[1..][k] < b[1..][k]) {
          assert a[..k + 1] == [a[0]] + a[1..][..k] && b[..k + 1] == [b[0]] + b[1..][..k];
        }
      }
      if k :| 0 <= k < |b| && k <= |a| && a[..k] == b[..k] && (k == |a| || a[k] < b[k]) {
        if k > 0 {
          assert a[..k][0] == b[..k][0];
          assert a[1..][..k - 1] == a[..k][1..] && b[1..][..k - 1] == b[..k][1..];
        }
      }
    }
  }

  /** Without a readable counter a checkpoint counts as at frame -1. */
  lemma NextOf(e: Entry, n: int, others: bool)
    ensures e.progress == Missing || e.progress == Malformed ==> Next(e) == -1
    ensures e.progress == Parsed(Fields(None, others)) ==> Next(e) == -1
    ensures e.progress == Parsed(Fields(Some(n), others)) ==> Next(e) == n
  {
  }

  predicate Less(a: Entry, b: Entry) {
    || Next(a) < Next(b)
    || (Next(a) == Next(b) && (a.mtime < b.mtime || (a.mtime == b.mtime && NameLess(a.name, b.name))))
  }

  lemma {:induction false} NamesAreOrdered(a: string, b: string)
    ensures NameLess(a, b) || NameLess(b, a) || a == b
    ensures !(NameLess(a, b) && NameLess(b, a))
    ensures a == b ==> !NameLess(a, b)
  {
    if a == "" || b == "" {
    } else {
      NamesAreOrdered(a[1..], b[1..]);
      assert a == [a[0]] + a[1..] && b == [b[0]] + b[1..];
    }
  }

  lemma {:induction false} NamesAreTransitive(a: string, b: string, c: string)
    requires NameLess(a, b) && NameLess(b, c)
    ensures NameLess(a, c)
  {
    if a != "" && a[0] == b[0] == c[0] {
      NamesAreTransitive(a[1..], b[1..], c[1..]);
    }
  }

  lemma LessIsTransitive(a: Entry, b: Entry, c: Entry)
    requires Less(a, b) && Less(b, c)
    ensures Less(a, c)
  {
    if NameLess(a.name, b.name) && NameLess(b.name, c.name) {
      NamesAreTransitive(a.name, b.name, c.name);
    }
  }

  // ----- The greatest of a listing -----

  ghost predicate DistinctNames(s: seq<Entry>) {
    forall i, j :: 0 <= i < j < |s| ==> s[i].name != s[j].name
  }

  ghost predicate SameEntries(s: seq<Entry>, t: seq<Entry>) {
    && DistinctNames(s)
    && DistinctNames(t)
    && forall e :: e in s <==> e in t
  }

  function Select(s: seq<Entry>, p: Entry -> bool): (r: seq<Entry>)
    ensures forall e :: e in r <==> e in s && p(e)
    ensures DistinctNames(s) ==> DistinctNames(r)
  {
    if s == [] then []
    else
      var front := Select(s[..|s| - 1], p);
      assert forall i :: 0 <= i < |front| ==> front[i] in s[..|s| - 1];
      if p(s[|s| - 1]) then front + [s[|s| - 1]] else front
  }

  /** `max` keeps the first element that no later one exceeds. */
  function MaxBy(s: seq<Entry>, less: (Entry, Entry) -> bool): (r: Entry)
    requires s != []
    ensures r in s
  {
    var last := s[|s| - 1];
    if |s| == 1 then last
    else
      var best := MaxBy(s[..|s| - 1], less);
      if less(best, last) then last else best
  }

  ghost predicate GreatestOf(e: Entry, s: seq<Entry>) {
    e in s && forall f :: f in s ==> f == e || Less(f, e)
  }

  lemma {:induction false} MaxIsGreatest(s: seq<Entry>)
    requires s != [] && DistinctNames(s)
    ensures GreatestOf(MaxBy(s, Less), s)
  {
    var front, last := s[..|s| - 1], s[|s| - 1];
    if |s| == 1 {
    } else {
      MaxIsGreatest(front);
      var best := MaxBy(front, Less);
      NamesAreOrdered(best.name, last.name);
      forall f | f in s ensures f == MaxBy(s, Less) || Less(f, MaxBy(s, Less)) {
        if f in front && f != best && Less(best, last) {
          LessIsTransitive(f, best, last);
        }
      }
    }
  }

  lemma GreatestIsUnique(a: Entry, b: Entry, s: seq<Entry>)
    requires GreatestOf(a, s) && GreatestOf(b, s)
    ensures a == b
  {
    NamesAreOrdered(a.name, b.name);
  }

  // ----- `_resume_checkpoint` -----

  function Resume(checkpoints: Option<seq<Entry>>): Selection {
    var candidates := if checkpoints.Some? then Select(checkpoints.value, Resumable) else [];
    if candidates == [] then DefaultPath
    else if exists e :: e in candidates && e.progress.Malformed? then Raises
    else Chosen(MaxBy(candidates, Less))
  }

  // ----- `_checkpoint` -----

  /** Every directory with a manifest and a non-empty dictionary competes; the greatest key wins. */
  method Closeout(globbed: seq<Entry>) returns (r: Option<Entry>)
    requires DistinctNames(globbed)
    ensures r == CloseoutChoice(globbed)
    ensures r.None? <==> forall e :: e in globbed ==> !Closable(e)
    ensures r.Some? ==> GreatestOf(r.value, Select(globbed, Closable))
  {
    var candidates := [];
    for i := 0 to |globbed|
      invariant candidates == Select(globbed[..i], Closable)
    {
      var e := globbed[i];
      assert globbed[..i + 1][..i] == globbed[..i];
      if e.isDir && e.manifest && HasProgress(e) {
        candidates := candidates + [e];
      }
    }
    assert globbed[..|globbed|] == globbed;
    if candidates == [] {
      return None;
    }
    MaxIsGreatest(candidates);
    r := Some(MaxBy(candidates, Less));
  }

  function CloseoutChoice(globbed: seq<Entry>): Option<Entry> {
    var candidates := Select(globbed, Closable);
    if candidates == [] then None else Some(MaxBy(candidates, Less))
  }

  /** Whatever else is a candidate has a smaller frame counter, or the same and an older time, or the same and an
      earlier name. */
  ghost predicate Outranks(e: Entry, s: seq<Entry>, candidate: Entry -> bool) {
    forall f :: f in s && candidate(f) && f != e ==>
      || Next(f) < Next(e)
      || (Next(f) == Next(e) && (f.mtime < e.mtime || (f.mtime == e.mtime && NameLess(f.name, e.name))))
  }

  lemma {:induction false} GreatestOfIff(s: seq<Entry>, candidate: Entry -> bool, e: Entry)
    requires DistinctNames(s)
    ensures GreatestOf(e, Select(s, candidate)) <==> e in s && candidate(e) && Outranks(e, s, candidate)
  {
  }

  /** Main fact, the resumed checkpoint: among the directories with a manifest the one that outranks the others, unless
      the progress file of one is malformed; the default path iff there is none. */
  lemma {:induction false} ResumeIff(s: seq<Entry>, e: Entry)
    requires DistinctNames(s)
    ensures Resume(None) == DefaultPath
    ensures Resume(Some(s)) == DefaultPath <==> forall f :: f in s ==> !(f.isDir && f.manifest)
    ensures Resume(Some(s)) == Raises <==> exists f :: f in s && f.isDir && f.manifest && f.progress == Malformed
    ensures Resume(Some(s)) == Chosen(e) <==>
      && (forall f :: f in s && f.isDir && f.manifest ==> f.progress != Malformed)
      && e in s && e.isDir && e.manifest && Outranks(e, s, (f: Entry) => f.isDir && f.manifest)
  {
    var candidates := Select(s, Resumable);
    var candidate := (f: Entry) => f.isDir && f.manifest;
    if candidates != [] {
      assert candidates[0] in candidates;
      MaxIsGreatest(candidates);
      GreatestOfIff(s, Resumable, MaxBy(candidates, Less));
      GreatestOfIff(s, Resumable, e);
      assert Outranks(e, s, candidate) <==> Outranks(e, s, Resumable);
      if GreatestOf(e, candidates) {
        GreatestIsUnique(e, MaxBy(candidates, Less), candidates);
      }
    }
    if f :| f in s && f.isDir && f.manifest {
      assert f in candidates;
    }
    assert forall f :: f in s && f.isDir && f.manifest ==> f in candidates;
  }

  /** Main fact, the reported checkpoint: among the directories with a manifest and a progress file that is a dictionary
      with some key, the one that outranks the others; none iff there is none. */
  lemma {:induction false} CloseoutIff(s: seq<Entry>, e: Entry)
    requires DistinctNames(s)
    ensures CloseoutChoice(s) == None <==> forall f :: f in s ==> !Closes(f)
    ensures CloseoutChoice(s) == Some(e) <==> e in s && Closes(e) && Outranks(e, s, Closes)
  {
    var candidates := Select(s, Closable);
    assert forall f :: Closes(f) <==> Closable(f);
    if candidates != [] {
      assert candidates[0] in candidates;
      MaxIsGreatest(candidates);
      GreatestOfIff(s, Closable, MaxBy(candidates, Less));
      GreatestOfIff(s, Closable, e);
      assert Outranks(e, s, Closes) <==> Outranks(e, s, Closable);
      if GreatestOf(e, candidates) {
        GreatestIsUnique(e, MaxBy(candidates, Less), candidates);
      }
    }
    assert forall f :: f in s && Closes(f) ==> f in candidates;
  }

  predicate Closes(e: Entry) {
    e.isDir && e.manifest && e.progress.Parsed? && e.progress.fields != Fields(None, false)
  }

  /** The one resumed is the one reported. */
  ghost predicate SameCheckpoint(listed: seq<Entry>, globbed: seq<Entry>) {
    Resume(Some(listed)).Chosen? && CloseoutChoice(globbed) == Some(Resume(Some(listed)).entry)
  }

  ghost predicate Outdone(e: Entry, s: seq<Entry>) {
    exists c :: c in s && Closable(c) && Less(e, c)
  }

  /** No progress file that is read is broken, something can be closed, and whatever has no progress to show is
      exceeded by something that has. */
  ghost predicate WellRecorded(s: seq<Entry>) {
    && (forall e :: e in s && Resumable(e) ==> !e.progress.Malformed?)
    && (exists c :: c in s && Closable(c))
    && forall e :: e in s && Resumable(e) && !HasProgress(e) ==> Outdone(e, s)
  }

  /** When resuming gets to choose, the reported checkpoint is that one iff it has progress to show. */
  lemma {:induction false} ReportedIffProgress(listed: seq<Entry>, globbed: seq<Entry>)
    requires SameEntries(listed, globbed)
    requires Resume(Some(listed)).Chosen?
    ensures SameCheckpoint(listed, globbed) <==> HasProgress(Resume(Some(listed)).entry)
  {
    var candidates := Select(listed, Resumable);
    var chosen := Resume(Some(listed)).entry;
    MaxIsGreatest(candidates);
    var closable := Select(globbed, Closable);
    if HasProgress(chosen) {
      assert chosen in closable;
      MaxIsGreatest(closable);
      assert GreatestOf(chosen, closable);
      GreatestIsUnique(chosen, MaxBy(closable, Less), closable);
    }
  }

  /** The greatest resumable entry has progress iff every one without is exceeded by one with. */
  lemma {:induction false} GreatestHasProgressIff(listed: seq<Entry>, chosen: Entry)
    requires GreatestOf(chosen, Select(listed, Resumable))
    ensures HasProgress(chosen) <==> forall e :: e in listed && Resumable(e) && !HasProgress(e) ==> Outdone(e, listed)
  {
    var candidates := Select(listed, Resumable);
    assert chosen in candidates;
    if HasProgress(chosen) {
      forall e | e in listed && Resumable(e) && !HasProgress(e) ensures Outdone(e, listed) {
        assert e in candidates;
        assert Closable(chosen) && Less(e, chosen);
      }
    } else if Outdone(chosen, listed) {
      var c :| c in listed && Closable(c) && Less(chosen, c);
      assert c in candidates;
      LessIsTransitive(chosen, c, chosen);
      NamesAreOrdered(chosen.name, chosen.name);
    }
  }

  /**
   * Main fact: under any two listing orders the two scripts name the same checkpoint iff the directory is well
   * recorded.
   */
  lemma {:induction false} LineagesAgreeIff(listed: seq<Entry>, globbed: seq<Entry>)
    requires SameEntries(listed, globbed)
    ensures SameCheckpoint(listed, globbed) <==> WellRecorded(listed)
  {
    var candidates := Select(listed, Resumable);
    if candidates != [] {
      MaxIsGreatest(candidates);
      GreatestHasProgressIff(listed, MaxBy(candidates, Less));
    }
    if Resume(Some(listed)).Chosen? {
      ReportedIffProgress(listed, globbed);
      var chosen := Resume(Some(listed)).entry;
      assert chosen in candidates;
      if HasProgress(chosen) {
        assert Closable(chosen) && chosen in listed;
      }
    } else if exists c :: c in listed && Closable(c) {
      var c :| c in listed && Closable(c);
      assert c in candidates;
    }
  }

  /** One checkpoint that has finished a frame is enough for both to agree. */
  lemma {:induction false} AnyFrameMeansAgreement(listed: seq<Entry>, globbed: seq<Entry>, e: Entry)
    requires SameEntries(listed, globbed)
    requires forall f :: f in listed && Resumable(f) ==> !f.progress.Malformed?
    requires e in listed && Resumable(e) && Next(e) >= 0
    ensures Resume(Some(listed)).Chosen? && Next(Resume(Some(listed)).entry) >= Next(e)
    ensures CloseoutChoice(globbed) == Some(Resume(Some(listed)).entry)
  {
    var candidates := Select(listed, Resumable);
    assert e in candidates;
    MaxIsGreatest(candidates);
    ReportedIffProgress(listed, globbed);
  }

  /** A fresher checkpoint whose progress file is empty is resumed but not reported. */
  lemma {:induction false} FresherEmptyIsNotReported(started: Entry, older: Entry)
    requires Resumable(started) && started.progress == Parsed(Fields(None, false))
    requires Resumable(older) && older.progress == Parsed(Fields(None, true))
    requires older.mtime < started.mtime && older.name != started.name
    ensures Resume(Some([started, older])) == Chosen(started)
    ensures CloseoutChoice([started, older]) == Some(older)
  {
    var s := [started, older];
    var candidates, closable := Select(s, Resumable), Select(s, Closable);
    assert started in s && older in s;
    assert started in candidates && older in candidates && older in closable && started !in closable;
    MaxIsGreatest(candidates);
    assert !Less(started, older);
  }

  lemma {:induction false} LineagesCanDisagree()
    ensures
      var started := Entry("b", true, true, 2, Parsed(Fields(None, false)));
      var older := Entry("a", true, true, 1, Parsed(Fields(None, true)));
      && Resume(Some([started, older])) == Chosen(started)
      && CloseoutChoice([started, older]) == Some(older)
  {
    assert "a" != "b";
    FresherEmptyIsNotReported(Entry("b", true, true, 2, Parsed(Fields(None, false))),
                              Entry("a", true, true, 1, Parsed(Fields(None, true))));
  }

  // ----- The benchmark's own choice -----

  predicate NextLess(a: Entry, b: Entry) {
    Next(a) < Next(b)
  }

  predicate HasManifest(e: Entry) {
    e.manifest
  }

  /** A missing progress file is not tolerated here, and ties go to whatever is listed first. */
  function Benchmark(listed: seq<Entry>): Selection {
    var candidates := Select(listed, HasManifest);
    if candidates == [] || exists e :: e in candidates && !e.progress.Parsed? then Raises
    else Chosen(MaxBy(candidates, NextLess))
  }

  /** A manifest is a file inside the checkpoint, so its holder is a directory. */
  ghost predicate OnDisk(s: seq<Entry>) {
    forall e :: e in s && e.manifest ==> e.isDir
  }

  /** There is a checkpoint, and every checkpoint has a readable progress file. */
  ghost predicate Readable(s: seq<Entry>) {
    && (exists e :: e in s && e.manifest)
    && forall e :: e in s && e.manifest ==> e.progress.Parsed?
  }

  ghost predicate OneFurthest(s: seq<Entry>) {
    forall e, f :: e in s && f in s && Furthest(e, s) && Furthest(f, s) ==> e == f
  }

  ghost predicate Furthest(e: Entry, s: seq<Entry>) {
    e in s && e.manifest && forall f :: f in s && f.manifest ==> Next(f) <= Next(e)
  }

  /** The k-th entry is as far as any, and no checkpoint listed before it is as far. */
  ghost predicate FirstFurthest(s: seq<Entry>, k: int) {
    0 <= k < |s| && Furthest(s[k], s) && forall j :: 0 <= j < k && s[j].manifest ==> Next(s[j]) < Next(s[k])
  }

  lemma MaxOfExtended(before: seq<Entry>, last: Entry)
    ensures MaxBy(before + [last], NextLess)
         == if before == [] || NextLess(MaxBy(before, NextLess), last) then last else MaxBy(before, NextLess)
  {
    assert (before + [last])[..|before|] == before;
  }

  lemma FurthestOfExtended(front: seq<Entry>, last: Entry, k: int)
    requires FirstFurthest(front, k)
    ensures !last.manifest || Next(last) <= Next(front[k]) ==> FirstFurthest(front + [last], k)
    ensures last.manifest && Next(front[k]) < Next(last) ==> FirstFurthest(front + [last], |front|)
  {
    var s := front + [last];
    assert forall e :: e in s <==> e in front || e == last;
    assert forall j :: 0 <= j < |front| ==> s[j] == front[j] && s[j] in front;
  }

  lemma SelectOfExtended(front: seq<Entry>, last: Entry)
    ensures Select(front + [last], HasManifest)
         == if last.manifest then Select(front, HasManifest) + [last] else Select(front, HasManifest)
  {
    assert (front + [last])[..|front|] == front;
  }

  lemma FirstIsFurthest(front: seq<Entry>, last: Entry)
    requires last.manifest && forall e :: e in front ==> !e.manifest
    ensures FirstFurthest(front + [last], |front|)
  {
    var s := front + [last];
    assert forall e :: e in s <==> e in front || e == last;
    assert forall j :: 0 <= j < |front| ==> s[j] == front[j] && s[j] in front;
  }

  lemma {:induction false} FirstMaximumWins(s: seq<Entry>) returns (k: int)
    requires Select(s, HasManifest) != []
    ensures FirstFurthest(s, k) && MaxBy(Select(s, HasManifest), NextLess) == s[k]
  {
    var front, last := s[..|s| - 1], s[|s| - 1];
    var before := Select(front, HasManifest);
    assert s == front + [last];
    SelectOfExtended(front, last);
    MaxOfExtended(before, last);
    if before == [] {
      assert forall e :: e in front && e.manifest ==> e in before;
      FirstIsFurthest(front, last);
      k := |front|;
    } else {
      var i := FirstMaximumWins(front);
      FurthestOfExtended(front, last, i);
      k := if last.manifest && Next(front[i]) < Next(last) then |front| else i;
    }
  }

  /** The benchmark resumes the first of the furthest checkpoints listed, if it can read them all. */
  lemma {:induction false} BenchmarkPicksAFurthest(listed: seq<Entry>)
    ensures Benchmark(listed).Chosen? <==> Readable(listed)
    ensures Benchmark(listed).Raises? <==> !Readable(listed)
    ensures Benchmark(listed).Chosen? ==> exists k :: FirstFurthest(listed, k) && Benchmark(listed).entry == listed[k]
  {
    var candidates := Select(listed, HasManifest);
    if e :| e in listed && e.manifest {
      assert e in candidates;
      var k := FirstMaximumWins(listed);
    }
    if candidates != [] {
      assert candidates[0] in candidates;
    }
  }

  lemma {:induction false} ResumePicksAFurthest(listed: seq<Entry>)
    requires DistinctNames(listed) && OnDisk(listed)
    ensures Resume(Some(listed)).Chosen? ==> Furthest(Resume(Some(listed)).entry, listed)
    ensures Readable(listed) ==> Resume(Some(listed)).Chosen?
  {
    var candidates := Select(listed, Resumable);
    if e :| e in listed && e.manifest {
      assert e in candidates;
    }
    if candidates != [] {
      MaxIsGreatest(candidates);
      assert forall e :: e in listed && e.manifest ==> e in candidates;
    }
  }

  /** The listing that names entry `k` before every other. */
  function Fronted(s: seq<Entry>, k: nat): seq<Entry>
    requires k < |s|
  {
    [s[k]] + s[..k] + s[k + 1..]
  }

  lemma FrontedIsSame(s: seq<Entry>, k: nat)
    requires k < |s| && DistinctNames(s)
    ensures SameEntries(s, Fronted(s, k))
  {
    var t := Fronted(s, k);
    forall e ensures e in s <==> e in t {
      if e in s {
        var i :| 0 <= i < |s| && s[i] == e;
        assert e == t[if i < k then i + 1 else if i == k then 0 else i];
      }
    }
    forall i, j | 0 <= i < j < |t| ensures t[i].name != t[j].name {
      assert t[j] == (if j <= k then s[j - 1] else s[j]);
      assert i > 0 ==> t[i] == (if i <= k then s[i - 1] else s[i]);
    }
  }

  /** The benchmark resumes what the validation would resume. */
  ghost predicate SameResumed(order: seq<Entry>, listed: seq<Entry>) {
    Benchmark(order).Chosen? && Benchmark(order) == Resume(Some(listed))
  }

  lemma {:induction false} FrontedIsChosen(listed: seq<Entry>, k: nat)
    requires Readable(listed) && DistinctNames(listed) && k < |listed| && Furthest(listed[k], listed)
    ensures Benchmark(Fronted(listed, k)) == Chosen(listed[k])
  {
    var order := Fronted(listed, k);
    FrontedIsSame(listed, k);
    assert order[0] == listed[k] && listed[k] in order;
    assert Readable(order);
    BenchmarkPicksAFurthest(order);
    var i :| FirstFurthest(order, i) && Benchmark(order).entry == order[i];
    assert order[i] in listed;
    assert i == 0;
  }

  lemma {:induction false} OneFurthestIsChosen(listed: seq<Entry>, order: seq<Entry>)
    requires Readable(listed) && OneFurthest(listed) && OnDisk(listed) && SameEntries(listed, order)
    ensures SameResumed(order, listed)
  {
    ResumePicksAFurthest(listed);
    var e :| e in listed && e.manifest;
    assert e in order && Readable(order);
    BenchmarkPicksAFurthest(order);
    assert Furthest(Benchmark(order).entry, listed);
  }

  /**
   * Main fact: the benchmark resumes the checkpoint the validation would resume, under every listing order, iff
   * it can read every progress file and exactly one checkpoint is furthest.
   */
  lemma {:induction false} BenchmarkAgreesIff(listed: seq<Entry>)
    requires OnDisk(listed) && DistinctNames(listed)
    ensures (forall order :: SameEntries(listed, order) ==> SameResumed(order, listed))
            <==> Readable(listed) && OneFurthest(listed)
  {
    if Readable(listed) && OneFurthest(listed) {
      forall order | SameEntries(listed, order) ensures SameResumed(order, listed) {
        OneFurthestIsChosen(listed, order);
      }
    } else if !Readable(listed) {
      BenchmarkPicksAFurthest(listed);
      assert SameEntries(listed, listed) && !SameResumed(listed, listed);
    } else {
      ResumePicksAFurthest(listed);
      var resumed := Resume(Some(listed)).entry;
      var e, f :| e in listed && f in listed && Furthest(e, listed) && Furthest(f, listed) && e != f;
      var other := if e == resumed then f else e;
      var k :| 0 <= k < |listed| && listed[k] == other;
      FrontedIsSame(listed, k);
      FrontedIsChosen(listed, k);
      assert !SameResumed(Fronted(listed, k), listed);
    }
  }

  /** Ordered by what breaks ties in the validation: modification time, then name. */
  predicate Older(a: Entry, b: Entry) {
    a.mtime < b.mtime || (a.mtime == b.mtime && NameLess(a.name, b.name))
  }

  /** The first furthest checkpoint listed is the latest of the furthest ones. */
  ghost predicate FirstIsLatest(order: seq<Entry>, k: int) {
    && FirstFurthest(order, k)
    && forall f :: Furthest(f, order) && f != order[k] ==> Older(f, order[k])
  }

  /**
   * Main fact, for one listing: the benchmark resumes what the validation would iff it can read every progress file
   * and the first furthest checkpoint listed exceeds the other furthest ones in modification time and name.
   */
  lemma {:induction false} BenchmarkAgreesHereIff(listed: seq<Entry>, order: seq<Entry>)
    requires OnDisk(listed) && SameEntries(listed, order)
    ensures SameResumed(order, listed) <==> Readable(order) && exists k :: FirstIsLatest(order, k)
  {
    BenchmarkPicksAFurthest(order);
    if Readable(order) {
      var k :| FirstFurthest(order, k) && Benchmark(order).entry == order[k];
      var e :| e in order && e.manifest;
      assert e in listed && Readable(listed);
      ResumePicksAFurthest(listed);
      var resumed := Resume(Some(listed)).entry;
      ResumedIsLatest(listed, order, resumed);
      if exists i :: FirstIsLatest(order, i) {
        var i :| FirstIsLatest(order, i);
        assert i == k;
        assert resumed != order[k] ==> Older(resumed, order[k]);
        NamesAreOrdered(resumed.name, order[k].name);
      }
      if resumed == order[k] {
        assert FirstIsLatest(order, k);
      }
    }
  }

  /** What the validation resumes is furthest, and later than the other furthest ones. */
  lemma {:induction false} ResumedIsLatest(listed: seq<Entry>, order: seq<Entry>, resumed: Entry)
    requires OnDisk(listed) && SameEntries(listed, order)
    requires Resume(Some(listed)) == Chosen(resumed)
    ensures Furthest(resumed, order)
    ensures forall f :: Furthest(f, order) && f != resumed ==> Older(f, resumed)
  {
    var candidates := Select(listed, Resumable);
    MaxIsGreatest(candidates);
    ResumePicksAFurthest(listed);
    assert resumed in order;
    forall f | Furthest(f, order) && f != resumed ensures Older(f, resumed) {
      assert f in candidates && Less(f, resumed) && Next(f) == Next(resumed);
    }
  }

  /** Two checkpoints equally far: listed the other way round, the benchmark resumes the other one. */
  lemma TiesFollowTheListing()
    ensures
      var a := Entry("a", true, true, 1, Parsed(Fields(Some(5), true)));
      var b := Entry("b", true, true, 2, Parsed(Fields(Some(5), true)));
      Benchmark([a, b]) == Chosen(a) && Benchmark([b, a]) == Chosen(b)
  {
    var a := Entry("a", true, true, 1, Parsed(Fields(Some(5), true)));
    var b := Entry("b", true, true, 2, Parsed(Fields(Some(5), true)));
    assert "a" != "b";
    TiedPairTakesTheFirst(a, b);
    TiedPairTakesTheFirst(b, a);
  }

  lemma {:induction false} TiedPairTakesTheFirst(a: Entry, b: Entry)
    requires a.manifest && b.manifest && a.progress.Parsed? && b.progress.Parsed? && Next(a) == Next(b)
    ensures Benchmark([a, b]) == Chosen(a)
  {
    var s := [a, b];
    assert s[0] in s;
    BenchmarkPicksAFurthest(s);
    var k :| FirstFurthest(s, k) && Benchmark(s).entry == s[k];
    assert s[0].manifest && Next(s[0]) == Next(s[k]);
  }
}
