/** The independent re-verification `_archive`, over every history of archival runs. */
module ArchiveCloseout {
  import opened Basics
  import opened Archive
  import opened ArchiveHistory
  import opened ArchiveProgress

  /** The glob pattern finds exactly one destination. */
  ghost predicate OnlyMatch(archives: map<Name, Destination>, matching: set<Name>, d: Name) {
    forall n :: n in archives && n in matching <==> n == d
  }

  /** Exactly one destination matches the pattern, its manifest says verified, and every listed file is
      there with the listed hash. */
  ghost predicate Accepts(archives: map<Name, Destination>, matching: set<Name>, sha: Content -> Digest, d: Name) {
    && OnlyMatch(archives, matching, d)
    && archives[d].manifest.Some? && archives[d].manifest.value.hashVerificationPass
    && HashesMatch(archives[d].manifest.value.files, Local(archives[d]), sha)
  }

  // Against later changes of the files.

  ghost predicate Injective(sha: Content -> Digest) {
    forall a, b :: sha(a) == sha(b) ==> a == b
  }

  /** Main fact: against a manifest written for `local`, and with collision-free hashes, the re-verification
      accepts a possibly altered archive iff it is the single match and every archived file is unchanged. */
  lemma AcceptsIffUnchanged(archives: map<Name, Destination>, matching: set<Name>, sha: Content -> Digest, d: Name,
                            local: Directory, evidence: Directory)
    requires Injective(sha) && d in archives && archives[d].manifest == Some(GoodManifest(local, evidence, sha))
    ensures Accepts(archives, matching, sha, d) <==>
      && OnlyMatch(archives, matching, d)
      && forall p :: HasFile(local, p) ==>
           HasFile(Local(archives[d]), p) && ContentAt(Local(archives[d]), p) == ContentAt(local, p)
  {
    var rows := Inventory(local, sha);
    if Accepts(archives, matching, sha, d) {
      forall p | HasFile(local, p)
        ensures HasFile(Local(archives[d]), p) && ContentAt(Local(archives[d]), p) == ContentAt(local, p)
      {
        assert p in rows;
      }
    }
  }

  /** The same, entry by entry: every archived file is still there with its content. */
  lemma AcceptsIffEntriesKept(archives: map<Name, Destination>, matching: set<Name>, sha: Content -> Digest, d: Name,
                              local: Directory, evidence: Directory)
    requires Injective(sha) && d in archives && archives[d].manifest == Some(GoodManifest(local, evidence, sha))
    ensures Accepts(archives, matching, sha, d) <==>
      && (forall n :: n in archives && n in matching <==> n == d)
      && forall n :: n in local ==> EntryKept(local[n], n, Local(archives[d]))
  {
    var now := Local(archives[d]);
    AcceptsIffUnchanged(archives, matching, sha, d, local, evidence);
    if Accepts(archives, matching, sha, d) {
      forall n | n in local ensures EntryKept(local[n], n, now) {
        if local[n].File? {
          FileAt(now, Top(n), local[n].content);
          assert HasFile(local, Top(n));
        } else {
          forall r | r in local[n].files ensures KeptBelow(n, r, local[n].files[r], now) {
            FileAt(now, Below(n, r), local[n].files[r]);
            assert HasFile(local, Below(n, r));
          }
        }
      }
    }
    if forall n :: n in local ==> EntryKept(local[n], n, now) {
      forall p | HasFile(local, p) ensures HasFile(now, p) && ContentAt(now, p) == ContentAt(local, p) {
        assert EntryKept(local[p.name], p.name, now);
        assert p.Below? ==> KeptBelow(p.name, p.rest, local[p.name].files[p.rest], now);
      }
    }
  }

  predicate KeptBelow(n: Name, r: string, c: Content, now: Directory) {
    n in now && now[n].Dir? && r in now[n].files && now[n].files[r] == c
  }

  ghost predicate EntryKept(e: Entry, n: Name, now: Directory) {
    match e
    case File(c) => n in now && now[n] == File(c)
    case Dir(files) => forall r :: r in files ==> KeptBelow(n, r, files[r], now)
  }

  /** An archive without a manifest, with one that failed its own verification, or with a listed file whose hash is
      not the listed one, is rejected. */
  lemma UnverifiedIsRejected(archives: map<Name, Destination>, matching: set<Name>, sha: Content -> Digest, d: Name,
                             p: Path)
    requires d in archives
    requires match archives[d].manifest
      case None => true
      case Some(m) => !m.hashVerificationPass
                      || (p in m.files && HasFile(Local(archives[d]), p)
                          && sha(ContentAt(Local(archives[d]), p)) != m.files[p].sha256)
    ensures !Accepts(archives, matching, sha, d)
  {
  }

  // After any history.

  /** A manifest, once written, lists exactly what the destination holds, and that is all the children. */
  ghost predicate Sealed(children: seq<Name>, sha: Content -> Digest, d: Destination) {
    d.manifest.Some? ==>
      && d.manifest.value.hashVerificationPass && d.manifest.value.files == Inventory(Local(d), sha)
      && AllIn(children, Local(d))
  }

  ghost predicate SealedAt(children: seq<Name>, sha: Content -> Digest, archives: map<Name, Destination>, d: Name) {
    d in archives ==> Sealed(children, sha, archives[d])
  }

  /** The invariant of a run that keeps its destination sealed. */
  ghost predicate Sealing(children: seq<Name>, dest: Name, sha: Content -> Digest, disk: Disk, pc: Pc) {
    && SealedAt(children, sha, disk.archives, dest)
    && (pc.MakeLocal? || pc.Move? ==> dest in disk.archives && disk.archives[dest].manifest.None?)
    && (pc.Move? ==> pc.child <= |children| && AllIn(children[..pc.child], Local(disk.archives[dest])))
    && (WritesMetadata(pc) ==> dest in disk.archives && AllIn(children, Local(disk.archives[dest])))
    && (pc.WriteManifest? ==> pc.rows == Inventory(Local(disk.archives[dest]), sha))
  }

  lemma StepKeepsSealing(children: seq<Name>, dest: Name, sha: Content -> Digest, disk: Disk, pc: Pc)
    requires CanStep(children, dest, disk, pc) && Sealing(children, dest, sha, disk, pc)
    ensures var (disk', pc') := Step(children, dest, sha, disk, pc); Sealing(children, dest, sha, disk', pc')
  {
    match pc
    case Move(i) =>
      assert children[..|children|] == children;
      if i < |children| {
        assert forall k :: 0 <= k < i ==> children[..i + 1][k] == children[..i][k];
      }
    case _ =>
  }

  lemma {:induction false} ExecKeepsSealed(children: seq<Name>, dest: Name, sha: Content -> Digest, disk: Disk,
                                           pc: Pc, cut: nat)
    requires Sealing(children, dest, sha, disk, pc)
    ensures SealedAt(children, sha, Exec(children, dest, sha, disk, pc, cut).0.archives, dest)
    decreases cut
  {
    if cut == 0 || Terminal(pc) || !CanStep(children, dest, disk, pc) {
    } else {
      var (disk1, pc1) := Step(children, dest, sha, disk, pc);
      StepKeepsSealing(children, dest, sha, disk, pc);
      ExecKeepsSealed(children, dest, sha, disk1, pc1, cut - 1);
    }
  }

  lemma AttemptKeepsSealed(specs: seq<seq<Name>>, owner: Name -> nat, sha: Content -> Digest, sys: System, a: Attempt,
                           d: Name)
    requires a.spec < |specs| == |sys.worktrees| && owner(a.dest) == a.spec && owner(d) < |specs|
    requires SealedAt(specs[owner(d)], sha, sys.archives, d)
    ensures SealedAt(specs[owner(d)], sha, Attempted(specs, sha, sys, a).archives, d)
  {
    if d == a.dest {
      ExecKeepsSealed(specs[a.spec], a.dest, sha, View(sys, a.spec), Check, a.cut);
    } else {
      OthersUntouched(specs[a.spec], a.dest, sha, View(sys, a.spec), Check, a.cut, d);
    }
  }

  lemma {:induction false} HistoryKeepsSealed(specs: seq<seq<Name>>, owner: Name -> nat, sha: Content -> Digest,
                                              sys: System, attempts: seq<Attempt>, d: Name)
    requires |specs| == |sys.worktrees| && Labelled(owner, |specs|, attempts) && owner(d) < |specs|
    requires SealedAt(specs[owner(d)], sha, sys.archives, d)
    ensures SealedAt(specs[owner(d)], sha, History(specs, sha, sys, attempts).archives, d)
  {
    if attempts == [] {
    } else {
      var n := |attempts| - 1;
      HistoryKeepsSealed(specs, owner, sha, sys, attempts[..n], d);
      AttemptKeepsSealed(specs, owner, sha, History(specs, sha, sys, attempts[..n]), attempts[n], d);
    }
  }

  lemma SealedIsAccepted(children: seq<Name>, sha: Content -> Digest, archives: map<Name, Destination>,
                         matching: set<Name>, d: Name)
    requires SealedAt(children, sha, archives, d)
    ensures Accepts(archives, matching, sha, d) <==> OnlyMatch(archives, matching, d) && archives[d].manifest.Some?
  {
  }

  /** Main fact: after every history, wherever its runs were cut, the re-verification accepts a destination iff it
      is the single match and its manifest has been written. */
  lemma AcceptedIffManifestWritten(specs: seq<seq<Name>>, owner: Name -> nat, sha: Content -> Digest, sys: System,
                                   attempts: seq<Attempt>, matching: set<Name>, d: Name)
    requires |specs| == |sys.worktrees| && Labelled(owner, |specs|, attempts) && owner(d) < |specs|
    requires SealedAt(specs[owner(d)], sha, sys.archives, d)
    ensures var archives := History(specs, sha, sys, attempts).archives;
      Accepts(archives, matching, sha, d) <==> OnlyMatch(archives, matching, d) && archives[d].manifest.Some?
  {
    HistoryKeepsSealed(specs, owner, sha, sys, attempts, d);
    SealedIsAccepted(specs[owner(d)], sha, History(specs, sha, sys, attempts).archives, matching, d);
  }

  /** Main fact: after every history, what the re-verification accepts holds every child of its specification
      unchanged, and the worktree holds everything else. */
  lemma AcceptedMeansArchived(specs: seq<seq<Name>>, owner: Name -> nat, sha: Content -> Digest, sys: System,
                              attempts: seq<Attempt>, matching: set<Name>, d: Name)
    requires |specs| == |sys.worktrees| && Labelled(owner, |specs|, attempts) && owner(d) < |specs|
    requires Distinct(specs[owner(d)]) && 0 < |specs[owner(d)]| && NothingArchived(sys, owner, owner(d))
    requires SealedAt(specs[owner(d)], sha, sys.archives, d)
    requires Accepts(History(specs, sha, sys, attempts).archives, matching, sha, d)
    ensures Archived(specs[owner(d)], sys.worktrees[owner(d)], d, View(History(specs, sha, sys, attempts), owner(d)))
  {
    var children, original := specs[owner(d)], sys.worktrees[owner(d)];
    var disk := View(History(specs, sha, sys, attempts), owner(d));
    HistoryKeepsSealed(specs, owner, sha, sys, attempts, d);
    NothingArchivedIsLayout(children, sys, owner, owner(d));
    var m, home := HistoryKeepsLayout(specs, original, owner, sha, sys, attempts, owner(d));
    FullLayout(children, original, Mine(owner, owner(d)), disk, m, home, d);
  }

  lemma FullLayout(children: seq<Name>, original: Directory, mine: Name -> bool, disk: Disk, m: nat, home: Name,
                   d: Name)
    requires Distinct(children) && 0 < |children| && Layout(children, original, mine, disk, m, home)
    requires d in disk.archives && mine(d) && AllIn(children, Local(disk.archives[d]))
    ensures m == |children| && d == home && Archived(children, original, d, disk)
  {
    var last := children[|children| - 1];
    assert last in Local(disk.archives[d]);
    assert last in FirstChildren(children, m);
    var k :| 0 <= k < m && children[k] == last;
  }

  /** Main fact: whether the last run returned or raised over what is left in the worktree makes no difference to
      the re-verification; either way it accepts iff there is a single match. */
  lemma AcceptsWhateverTheVerdict(specs: seq<seq<Name>>, owner: Name -> nat, sha: Content -> Digest, sys: System,
                                  attempts: seq<Attempt>, dest: Name, cut: nat, matching: set<Name>)
    requires |specs| == |sys.worktrees| && Labelled(owner, |specs|, attempts) && owner(dest) < |specs|
    requires SealedAt(specs[owner(dest)], sha, sys.archives, dest)
    ensures var before := View(History(specs, sha, sys, attempts), owner(dest));
      var (disk, pc) := Exec(specs[owner(dest)], dest, sha, before, Check, cut);
      pc == Done || pc == Raised(VerificationFailed) ==>
        && (Accepts(disk.archives, matching, sha, dest) <==> OnlyMatch(disk.archives, matching, dest))
        && (pc == Done <==> BuildOnly(Inventory(disk.evidence, sha)))
  {
    var children, before := specs[owner(dest)], View(History(specs, sha, sys, attempts), owner(dest));
    HistoryKeepsSealed(specs, owner, sha, sys, attempts, dest);
    ExecKeepsSealed(children, dest, sha, before, Check, cut);
    ExecKeepsWritten(children, dest, sha, before, Check, cut);
    SealedIsAccepted(children, sha, Exec(children, dest, sha, before, Check, cut).0.archives, matching, dest);
  }

  /** Main fact, said before the run: if the run gets as far as its verdict, its archive is accepted iff no other
      matching destination exists beforehand. */
  lemma AcceptedIffAloneBefore(specs: seq<seq<Name>>, owner: Name -> nat, sha: Content -> Digest, sys: System,
                               attempts: seq<Attempt>, dest: Name, cut: nat, matching: set<Name>)
    requires |specs| == |sys.worktrees| && Labelled(owner, |specs|, attempts) && owner(dest) < |specs|
    requires SealedAt(specs[owner(dest)], sha, sys.archives, dest) && dest in matching
    ensures var before := View(History(specs, sha, sys, attempts), owner(dest));
      var (disk, pc) := Exec(specs[owner(dest)], dest, sha, before, Check, cut);
      pc == Done || pc == Raised(VerificationFailed) ==>
        (Accepts(disk.archives, matching, sha, dest)
        <==> forall n :: n in before.archives && n in matching ==> n == dest)
  {
    var children, before := specs[owner(dest)], View(History(specs, sha, sys, attempts), owner(dest));
    AcceptsWhateverTheVerdict(specs, owner, sha, sys, attempts, dest, cut, matching);
    ExecKeepsWritten(children, dest, sha, before, Check, cut);
    var archives := Exec(children, dest, sha, before, Check, cut).0.archives;
    forall n | n != dest ensures n in archives <==> n in before.archives {
      OthersUntouched(children, dest, sha, before, Check, cut, n);
    }
  }

  /** A worktree with one child and one stray file: the run raises, and its archive is accepted. */
  lemma RaisedRunIsAccepted(sha: Content -> Digest)
    ensures var evidence: Directory := map["reports" := File("r"), "notes" := File("n")];
      var (disk, pc) := Exec(["reports"], "a", sha, Disk(evidence, map[]), Check, 11);
      pc == Raised(VerificationFailed) && Accepts(disk.archives, {"a"}, sha, "a") && disk.archives["a"].readme
  {
    assert "notes" != "reports";
    StrayFileRaises("reports", "notes", map["reports" := File("r"), "notes" := File("n")], "a", sha);
  }

  lemma StrayFileRaises(child: Name, stray: Name, evidence: Directory, dest: Name, sha: Content -> Digest)
    requires child in evidence && stray in evidence && child != stray && evidence[stray].File?
    ensures var (disk, pc) := Exec([child], dest, sha, Disk(evidence, map[]), Check, 11);
      pc == Raised(VerificationFailed) && Accepts(disk.archives, {dest}, sha, dest) && disk.archives[dest].readme
  {
    var names := FirstChildren([child], 1);
    assert [child][0] in names;
    assert stray !in names;
    FreshRunCompletes([child], dest, sha, Disk(evidence, map[]), 11);
    assert HasFile(Without(evidence, names), Top(stray));
    var archives := Exec([child], dest, sha, Disk(evidence, map[]), Check, 11).0.archives;
    SealedIsAccepted([], sha, archives, {dest}, dest);
  }

  // A second match.

  /** Main fact: once another matching destination exists, no later history makes the re-verification accept. */
  lemma AnotherMatchBlocks(specs: seq<seq<Name>>, owner: Name -> nat, sha: Content -> Digest, sys: System,
                           attempts: seq<Attempt>, matching: set<Name>, a: Name, d: Name)
    requires |specs| == |sys.worktrees| && Labelled(owner, |specs|, attempts)
    requires a in sys.archives && a in matching && a != d
    ensures !Accepts(History(specs, sha, sys, attempts).archives, matching, sha, d)
  {
    HistoryPersists(specs, owner, sha, sys, attempts, a);
    assert a in History(specs, sha, sys, attempts).archives;
  }

  /** A run cut after creating its destination and before its first move does not endanger a later run under
      another timestamp, but leaves a second match, so the re-verification rejects even a normal return. */
  lemma AbortedDestinationBlocksCloseout(children: seq<Name>, a: Name, b: Name, sha: Content -> Digest, disk: Disk,
                                         early: nat, cut: nat, matching: set<Name>, d: Name)
    requires Distinct(children) && 2 <= early <= 3 && |children| + 10 <= cut
    requires a != b && a in matching && b in matching
    requires Unarchived(children, a, disk) && Unarchived(children, b, disk)
    ensures var disk1 := Exec(children, a, sha, disk, Check, early).0;
      var (disk2, pc2) := Exec(children, b, sha, disk1, Check, cut);
      && (pc2 == Done <==> BuildOnly(Inventory(Without(disk.evidence, FirstChildren(children, |children|)), sha)))
      && !Accepts(disk2.archives, matching, sha, d)
  {
    var disk1 := Exec(children, a, sha, disk, Check, early).0;
    EarlyCut(children, a, sha, disk, early);
    FreshRunCompletes(children, b, sha, disk1, cut);
    var archives := Exec(children, b, sha, disk1, Check, cut).0.archives;
    assert a in archives && b in archives;
  }

  /** One child: the run for "a" is cut at its second step, the run for "b" returns, and nothing is accepted. */
  lemma AbortedRunExample(sha: Content -> Digest, d: Name)
    ensures var disk: Disk := Disk(map["reports" := File("r")], map[]);
      var aborted := Exec(["reports"], "a", sha, disk, Check, 2).0;
      var (returned, pc) := Exec(["reports"], "b", sha, aborted, Check, 11);
      pc == Done && !Accepts(returned.archives, {"a", "b"}, sha, d)
  {
    assert "a" != "b";
    NothingLeftReturns("reports", map["reports" := File("r")], "a", "b", sha, d);
  }

  lemma NothingLeftReturns(child: Name, evidence: Directory, a: Name, b: Name, sha: Content -> Digest, d: Name)
    requires evidence.Keys == {child} && a != b
    ensures var aborted := Exec([child], a, sha, Disk(evidence, map[]), Check, 2).0;
      var (returned, pc) := Exec([child], b, sha, aborted, Check, 11);
      pc == Done && !Accepts(returned.archives, {a, b}, sha, d)
  {
    var names := FirstChildren([child], 1);
    assert [child][0] in names;
    assert Without(evidence, names) == map[];
    AbortedDestinationBlocksCloseout([child], a, b, sha, Disk(evidence, map[]), 2, 11, {a, b}, d);
  }

  lemma EarlyCut(children: seq<Name>, a: Name, sha: Content -> Digest, disk: Disk, early: nat)
    requires 2 <= early <= 3 && Unarchived(children, a, disk)
    ensures var disk1 := Exec(children, a, sha, disk, Check, early).0;
      disk1.evidence == disk.evidence && disk1.archives.Keys == disk.archives.Keys + {a}
  {
    var d1 := SetDestination(disk, a, EMPTY_DESTINATION);
    OneStep(children, a, sha, disk, Check, early, disk, MakeDestination);
    OneStep(children, a, sha, disk, MakeDestination, early - 1, d1, MakeLocal);
    if early == 3 {
      var d2 := SetDestination(d1, a, JustLocal(map[]));
      OneStep(children, a, sha, d1, MakeLocal, 1, d2, Move(0));
    }
  }
}
