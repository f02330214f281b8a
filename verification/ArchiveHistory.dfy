/** Histories of archival runs: several worktrees, one archive parent, every run cut after any number of steps. */
module ArchiveHistory {
  import opened Basics
  import opened Archive

  // One worktree. `mine` tells its destinations from those of other worktrees by their label.

  /** The first m children have left the evidence and are, unchanged, in the destination `home`; nothing else
      has moved. Destinations of other worktrees may hold anything. */
  ghost predicate Layout(children: seq<Name>, original: Directory, mine: Name -> bool, disk: Disk, m: nat, home: Name) {
    && m <= |children|
    && (m > 0 ==> home in disk.archives && mine(home) && AllIn(children, original))
    && disk.evidence == Without(original, FirstChildren(children, m))
    && forall d :: d in disk.archives && mine(d) ==>
         Local(disk.archives[d]) == if m > 0 && d == home then Only(original, FirstChildren(children, m)) else map[]
  }

  /** The invariant of a run. */
  ghost predicate Running(children: seq<Name>, original: Directory, mine: Name -> bool, dest: Name, disk: Disk,
                          pc: Pc, m: nat, home: Name)
  {
    && mine(dest)
    && Layout(children, original, mine, disk, m, home)
    && CanStep(children, dest, disk, pc)
    && (pc.MakeDestination? ==> m == 0 && dest !in disk.archives && AllIn(children, original))
    && (pc.MakeLocal? ==> m == 0 && AllIn(children, original))
    && (pc.Move? ==> m == pc.child && (m > 0 ==> home == dest) && disk.archives[dest].local.Some?
                     && AllIn(children, original))
    && (WritesMetadata(pc) || pc.Gate? || pc.Done? ==>
          m == |children| && (m > 0 ==> home == dest) && dest in disk.archives)
  }

  /** Main fact, one step: whatever a run does, a prefix of the children has moved, unchanged, into one destination. */
  lemma StepKeepsRunning(children: seq<Name>, original: Directory, mine: Name -> bool, dest: Name,
                         sha: Content -> Digest, disk: Disk, pc: Pc, m: nat, home: Name)
    returns (m': nat, home': Name)
    requires Distinct(children) && Running(children, original, mine, dest, disk, pc, m, home)
    ensures var (disk', pc') := Step(children, dest, sha, disk, pc);
      Running(children, original, mine, dest, disk', pc', m', home')
    ensures m <= m' && (m > 0 ==> home' == home)
    ensures !pc.Move? ==> m' == m
  {
    m', home' := m, home;
    match pc
    case Check =>
      CheckKeepsRunning(children, original, mine, dest, disk, m, home);
    case Move(i) =>
      if i < |children| {
        m', home' := m + 1, dest;
        MoveKeepsRunning(children, original, mine, dest, sha, disk, m, home);
      }
    case _ =>
      SettingKeepsRunning(children, original, mine, dest, sha, disk, pc, m, home);
  }

  /** Steps that create or describe the destination and move nothing. */
  lemma SettingKeepsRunning(children: seq<Name>, original: Directory, mine: Name -> bool, dest: Name,
                            sha: Content -> Digest, disk: Disk, pc: Pc, m: nat, home: Name)
    requires Running(children, original, mine, dest, disk, pc, m, home) && !pc.Check? && !pc.Move?
    ensures var (disk', pc') := Step(children, dest, sha, disk, pc);
      Running(children, original, mine, dest, disk', pc', m, home)
  {
    var disk' := Step(children, dest, sha, disk, pc).0;
    if pc.MakeDestination? || pc.MakeLocal? || WritesMetadata(pc) {
      assert disk' == disk || disk' == SetDestination(disk, dest, disk'.archives[dest]);
      if disk' != disk {
        SettingKeepsLayout(children, original, mine, dest, disk, disk'.archives[dest], m, home);
      }
    }
  }

  lemma SettingKeepsLayout(children: seq<Name>, original: Directory, mine: Name -> bool, dest: Name, disk: Disk,
                           d: Destination, m: nat, home: Name)
    requires mine(dest) && Layout(children, original, mine, disk, m, home)
    requires Local(d) == if dest in disk.archives then Local(disk.archives[dest]) else map[]
    ensures Layout(children, original, mine, SetDestination(disk, dest, d), m, home)
  {
  }

  lemma CheckKeepsRunning(children: seq<Name>, original: Directory, mine: Name -> bool, dest: Name, disk: Disk,
                          m: nat, home: Name)
    requires mine(dest) && Distinct(children) && Layout(children, original, mine, disk, m, home)
    ensures Running(children, original, mine, dest, disk, Checked(children, dest, disk), m, home)
    ensures 0 < m && (m < |children| || dest != home) ==>
              Checked(children, dest, disk) == Raised(if dest in disk.archives then Incomplete else SourcesMissing)
    ensures 0 < m == |children| && dest == home && disk.archives[dest].local.Some? ==>
              Checked(children, dest, disk) == TakeInventory
  {
    if 0 < m {
      assert children[0] in FirstChildren(children, m);
      assert children[0] !in disk.evidence;
    }
    if m < |children| {
      forall j | 0 <= j < m ensures children[j] != children[m] {}
      assert children[m] !in FirstChildren(children, m);
    }
  }

  lemma MoveKeepsRunning(children: seq<Name>, original: Directory, mine: Name -> bool, dest: Name,
                         sha: Content -> Digest, disk: Disk, m: nat, home: Name)
    requires Distinct(children) && m < |children|
    requires Running(children, original, mine, dest, disk, Move(m), m, home)
    ensures var (disk', pc') := Step(children, dest, sha, disk, Move(m));
      Running(children, original, mine, dest, disk', pc', m + 1, dest)
  {
  }

  lemma {:induction false} ExecKeepsRunning(children: seq<Name>, original: Directory, mine: Name -> bool, dest: Name,
                                            sha: Content -> Digest, disk: Disk, pc: Pc, cut: nat, m: nat, home: Name)
    returns (m': nat, home': Name)
    requires Distinct(children) && Running(children, original, mine, dest, disk, pc, m, home)
    ensures var (disk', pc') := Exec(children, dest, sha, disk, pc, cut);
      Running(children, original, mine, dest, disk', pc', m', home')
    ensures m <= m' && (m > 0 ==> home' == home)
    decreases cut
  {
    m', home' := m, home;
    if cut == 0 || Terminal(pc) {
    } else {
      var (disk1, pc1) := Step(children, dest, sha, disk, pc);
      var m1, home1 := StepKeepsRunning(children, original, mine, dest, sha, disk, pc, m, home);
      m', home' := ExecKeepsRunning(children, original, mine, dest, sha, disk1, pc1, cut - 1, m1, home1);
    }
  }

  // What can still run after a move.

  /** Main fact: after a partial move every further run for this worktree, however cut, changes nothing and only
      raises. */
  lemma PartialMoveOnlyRaises(children: seq<Name>, original: Directory, mine: Name -> bool, disk: Disk, m: nat,
                              home: Name, dest: Name, sha: Content -> Digest, cut: nat)
    requires mine(dest) && Distinct(children)
    requires Layout(children, original, mine, disk, m, home) && 0 < m < |children|
    ensures var (disk', pc') := Exec(children, dest, sha, disk, Check, cut);
      disk' == disk && (cut > 0 ==> pc' == Raised(if dest in disk.archives then Incomplete else SourcesMissing))
  {
    if cut > 0 {
      CheckKeepsRunning(children, original, mine, dest, disk, m, home);
      CheckDecides(children, dest, sha, disk, cut);
    }
  }

  /** A run under another timestamp after all children have moved also raises and changes nothing. */
  lemma OtherDestinationOnlyRaises(children: seq<Name>, original: Directory, mine: Name -> bool, disk: Disk,
                                   home: Name, dest: Name, sha: Content -> Digest, cut: nat)
    requires mine(dest) && Distinct(children) && 0 < |children| && dest != home
    requires Layout(children, original, mine, disk, |children|, home)
    ensures var (disk', pc') := Exec(children, dest, sha, disk, Check, cut);
      disk' == disk && (cut > 0 ==> pc' == Raised(if dest in disk.archives then Incomplete else SourcesMissing))
  {
    if cut > 0 {
      CheckKeepsRunning(children, original, mine, dest, disk, |children|, home);
      CheckDecides(children, dest, sha, disk, cut);
    }
  }

  lemma CheckDecides(children: seq<Name>, dest: Name, sha: Content -> Digest, disk: Disk, cut: nat)
    requires cut > 0 && Checked(children, dest, disk).Raised?
    ensures Exec(children, dest, sha, disk, Check, cut) == (disk, Checked(children, dest, disk))
  {
    OneStep(children, dest, sha, disk, Check, cut, disk, Checked(children, dest, disk));
  }

  // Several worktrees.

  /** The `.local` of each worktree, and the one archive parent. */
  datatype System = System(worktrees: seq<Directory>, archives: map<Name, Destination>)

  /** One run: its specification, its destination (label, timestamp and commit), and where it is cut. */
  datatype Attempt = Attempt(spec: nat, dest: Name, cut: nat)

  function View(sys: System, spec: nat): Disk
    requires spec < |sys.worktrees|
  {
    Disk(sys.worktrees[spec], sys.archives)
  }

  function Attempted(specs: seq<seq<Name>>, sha: Content -> Digest, sys: System, a: Attempt): (sys': System)
    requires a.spec < |specs| == |sys.worktrees|
    ensures |sys'.worktrees| == |sys.worktrees|
  {
    var disk := Exec(specs[a.spec], a.dest, sha, View(sys, a.spec), Check, a.cut).0;
    System(sys.worktrees[a.spec := disk.evidence], disk.archives)
  }

  /** Every run names a specification, and its destination carries that specification's label. */
  predicate Labelled(owner: Name -> nat, n: nat, attempts: seq<Attempt>) {
    forall k :: 0 <= k < |attempts| ==> attempts[k].spec < n && owner(attempts[k].dest) == attempts[k].spec
  }

  /** Any history of runs, of any specifications in any order, each cut anywhere. */
  function History(specs: seq<seq<Name>>, sha: Content -> Digest, sys: System, attempts: seq<Attempt>): (sys': System)
    requires |specs| == |sys.worktrees| && forall k :: 0 <= k < |attempts| ==> attempts[k].spec < |specs|
    ensures |sys'.worktrees| == |sys.worktrees|
  {
    if attempts == [] then sys
    else
      var n := |attempts| - 1;
      Attempted(specs, sha, History(specs, sha, sys, attempts[..n]), attempts[n])
  }

  function Mine(owner: Name -> nat, spec: nat): Name -> bool {
    (d: Name) => owner(d) == spec
  }

  /** A run of another specification leaves this worktree's layout alone. */
  lemma AttemptKeepsLayout(specs: seq<seq<Name>>, original: Directory, owner: Name -> nat, sha: Content -> Digest,
                           sys: System, a: Attempt, spec: nat, m: nat, home: Name)
    returns (m': nat, home': Name)
    requires spec < |specs| == |sys.worktrees| && a.spec < |specs| && owner(a.dest) == a.spec && Distinct(specs[spec])
    requires Layout(specs[spec], original, Mine(owner, spec), View(sys, spec), m, home)
    ensures Layout(specs[spec], original, Mine(owner, spec), View(Attempted(specs, sha, sys, a), spec), m', home')
    ensures m <= m' && (m > 0 ==> home' == home)
  {
    if a.spec == spec {
      m', home' := ExecKeepsRunning(
        specs[spec], original, Mine(owner, spec), a.dest, sha, View(sys, spec), Check, a.cut, m, home);
    } else {
      m', home' := m, home;
      forall d | Mine(owner, spec)(d)
        ensures var archives := Attempted(specs, sha, sys, a).archives;
          (d in archives <==> d in sys.archives) && (d in archives ==> archives[d] == sys.archives[d])
      {
        OthersUntouched(specs[a.spec], a.dest, sha, View(sys, a.spec), Check, a.cut, d);
      }
    }
  }

  lemma {:induction false} HistoryKeepsLayout(specs: seq<seq<Name>>, original: Directory, owner: Name -> nat,
                                              sha: Content -> Digest, sys: System, attempts: seq<Attempt>, spec: nat)
    returns (m: nat, home: Name)
    requires spec < |specs| == |sys.worktrees| && Labelled(owner, |specs|, attempts) && Distinct(specs[spec])
    requires Layout(specs[spec], original, Mine(owner, spec), View(sys, spec), 0, "")
    ensures Layout(specs[spec], original, Mine(owner, spec), View(History(specs, sha, sys, attempts), spec), m, home)
  {
    if attempts == [] {
      m, home := 0, "";
    } else {
      var n := |attempts| - 1;
      m, home := HistoryKeepsLayout(specs, original, owner, sha, sys, attempts[..n], spec);
      m, home := AttemptKeepsLayout(specs, original, owner, sha, History(specs, sha, sys, attempts[..n]),
                                    attempts[n], spec, m, home);
    }
  }

  /** None of this specification's destinations holds anything yet; those of others may. */
  ghost predicate NothingArchived(sys: System, owner: Name -> nat, spec: nat) {
    forall d :: d in sys.archives && owner(d) == spec ==> Local(sys.archives[d]) == map[]
  }

  lemma NothingArchivedIsLayout(children: seq<Name>, sys: System, owner: Name -> nat, spec: nat)
    requires spec < |sys.worktrees| && NothingArchived(sys, owner, spec)
    ensures Layout(children, sys.worktrees[spec], Mine(owner, spec), View(sys, spec), 0, "")
  {
    assert FirstChildren(children, 0) == {};
  }

  /** Where an evidence child is: still in the worktree, or in some destination of its own label. */
  predicate InWorktree(disk: Disk, child: Name) {
    child in disk.evidence
  }

  predicate InArchive(disk: Disk, mine: Name -> bool, d: Name, child: Name) {
    d in disk.archives && mine(d) && child in Local(disk.archives[d])
  }

  /** The child is, unchanged, in exactly one place. */
  ghost predicate ExactlyOnePlace(original: Directory, mine: Name -> bool, disk: Disk, child: Name) {
    && (InWorktree(disk, child) ==> child in original && disk.evidence[child] == original[child])
    && (forall d :: InArchive(disk, mine, d, child) ==>
          child in original && Local(disk.archives[d])[child] == original[child])
    && (InWorktree(disk, child) ==> forall d :: !InArchive(disk, mine, d, child))
    && (!InWorktree(disk, child) ==> exists d :: InArchive(disk, mine, d, child))
    && (forall d, e :: InArchive(disk, mine, d, child) && InArchive(disk, mine, e, child) ==> d == e)
  }

  /** Every child is in exactly one place, at most one destination holds any, and the rest of the worktree is as
      it was. */
  ghost predicate Safe(children: seq<Name>, original: Directory, mine: Name -> bool, disk: Disk) {
    && (forall k :: 0 <= k < |children| ==> ExactlyOnePlace(original, mine, disk, children[k]))
    && (forall d, e, a, b :: InArchive(disk, mine, d, a) && InArchive(disk, mine, e, b) ==> d == e)
    && (forall n :: n in original && n !in children ==> n in disk.evidence && disk.evidence[n] == original[n])
  }

  lemma LayoutIsSafe(children: seq<Name>, original: Directory, mine: Name -> bool, disk: Disk, m: nat, home: Name)
    requires Layout(children, original, mine, disk, m, home) && AllIn(children, original)
    ensures Safe(children, original, mine, disk)
  {
    var gone := FirstChildren(children, m);
    forall d, a | InArchive(disk, mine, d, a) ensures m > 0 && d == home {}
    forall k | 0 <= k < |children| ensures ExactlyOnePlace(original, mine, disk, children[k]) {
      if children[k] in gone {
        assert InArchive(disk, mine, home, children[k]);
      }
    }
  }

  /** Main fact, safety: in every history over any specifications, from any archive parent that holds nothing of
      this one yet, each of its children stays unchanged in exactly one place. */
  lemma EvidenceIsNeverLost(specs: seq<seq<Name>>, owner: Name -> nat, sha: Content -> Digest, sys: System,
                            attempts: seq<Attempt>, spec: nat)
    requires spec < |specs| == |sys.worktrees| && Labelled(owner, |specs|, attempts)
    requires Distinct(specs[spec]) && AllIn(specs[spec], sys.worktrees[spec]) && NothingArchived(sys, owner, spec)
    ensures Safe(specs[spec], sys.worktrees[spec], Mine(owner, spec), View(History(specs, sha, sys, attempts), spec))
  {
    NothingArchivedIsLayout(specs[spec], sys, owner, spec);
    var m, home := HistoryKeepsLayout(specs, sys.worktrees[spec], owner, sha, sys, attempts, spec);
    LayoutIsSafe(specs[spec], sys.worktrees[spec], Mine(owner, spec),
                 View(History(specs, sha, sys, attempts), spec), m, home);
  }

  /** A destination no run targets is left as it was. */
  lemma {:induction false} UntargetedUnchanged(specs: seq<seq<Name>>, owner: Name -> nat, sha: Content -> Digest,
                                               sys: System, attempts: seq<Attempt>, d: Name)
    requires |specs| == |sys.worktrees| && Labelled(owner, |specs|, attempts)
    requires forall k :: 0 <= k < |attempts| ==> attempts[k].dest != d
    ensures var archives := History(specs, sha, sys, attempts).archives;
      (d in archives <==> d in sys.archives) && (d in archives ==> archives[d] == sys.archives[d])
  {
    if attempts == [] {
    } else {
      var n := |attempts| - 1;
      UntargetedUnchanged(specs, owner, sha, sys, attempts[..n], d);
      var before := History(specs, sha, sys, attempts[..n]);
      OthersUntouched(specs[attempts[n].spec], attempts[n].dest, sha, View(before, attempts[n].spec), Check,
                      attempts[n].cut, d);
    }
  }

  lemma {:induction false} HistoryPersists(specs: seq<seq<Name>>, owner: Name -> nat, sha: Content -> Digest,
                                           sys: System, attempts: seq<Attempt>, d: Name)
    requires |specs| == |sys.worktrees| && Labelled(owner, |specs|, attempts) && d in sys.archives
    ensures d in History(specs, sha, sys, attempts).archives
  {
    if attempts == [] {
    } else {
      var n := |attempts| - 1;
      HistoryPersists(specs, owner, sha, sys, attempts[..n], d);
      var before := History(specs, sha, sys, attempts[..n]);
      DestinationsPersist(specs[attempts[n].spec], attempts[n].dest, sha, View(before, attempts[n].spec), Check,
                          attempts[n].cut, d);
    }
  }

  // What a normal return means, after any history.

  /** The manifest a run writes: the verified inventory of what it archived. */
  function GoodManifest(local: Directory, evidence: Directory, sha: Content -> Digest): Manifest {
    Manifest(Inventory(local, sha), true, BuildOnly(Inventory(evidence, sha)))
  }

  /** The destination's manifest is the one for what is on the disk now. */
  ghost predicate Described(dest: Name, sha: Content -> Digest, disk: Disk) {
    && dest in disk.archives
    && disk.archives[dest].manifest == Some(GoodManifest(Local(disk.archives[dest]), disk.evidence, sha))
  }

  /** What the metadata steps have established so far. */
  ghost predicate Written(dest: Name, sha: Content -> Digest, disk: Disk, pc: Pc) {
    var onlyBuild := BuildOnly(Inventory(disk.evidence, sha));
    && (pc.WriteManifest? ==> dest in disk.archives && pc.rows == Inventory(Local(disk.archives[dest]), sha)
                              && pc.remaining == Inventory(disk.evidence, sha))
    && (pc.WriteCsv? || pc.WriteHashes? || pc.WriteReadme? || pc.Gate? ==>
          Described(dest, sha, disk) && pc.pass == onlyBuild)
    && (pc.Done? ==> Described(dest, sha, disk) && onlyBuild)
    && (pc == Raised(VerificationFailed) ==> Described(dest, sha, disk) && !onlyBuild)
  }

  lemma StepKeepsWritten(children: seq<Name>, dest: Name, sha: Content -> Digest, disk: Disk, pc: Pc)
    requires CanStep(children, dest, disk, pc) && Written(dest, sha, disk, pc)
    ensures var (disk', pc') := Step(children, dest, sha, disk, pc); Written(dest, sha, disk', pc')
  {
  }

  lemma {:induction false} ExecKeepsWritten(children: seq<Name>, dest: Name, sha: Content -> Digest, disk: Disk,
                                            pc: Pc, cut: nat)
    requires Written(dest, sha, disk, pc)
    ensures var (disk', pc') := Exec(children, dest, sha, disk, pc, cut); Written(dest, sha, disk', pc')
    decreases cut
  {
    if cut == 0 || Terminal(pc) || !CanStep(children, dest, disk, pc) {
    } else {
      var (disk1, pc1) := Step(children, dest, sha, disk, pc);
      StepKeepsWritten(children, dest, sha, disk, pc);
      OneStep(children, dest, sha, disk, pc, cut, disk1, pc1);
      ExecKeepsWritten(children, dest, sha, disk1, pc1, cut - 1);
    }
  }

  /** All children, unchanged, in the destination, and everything else still in the worktree. */
  ghost predicate Archived(children: seq<Name>, original: Directory, dest: Name, disk: Disk) {
    var names := FirstChildren(children, |children|);
    && dest in disk.archives && Local(disk.archives[dest]) == Only(original, names)
    && disk.evidence == Without(original, names)
    && AllIn(children, Local(disk.archives[dest]))
  }

  /** Main fact: whatever runs of whatever specifications came before, a run that returns normally leaves every
      child unchanged in its own destination, a manifest that is the verified inventory of just those children,
      and nothing but files below build/ in the worktree. */
  lemma NormalReturnMeansArchived(specs: seq<seq<Name>>, owner: Name -> nat, sha: Content -> Digest, sys: System,
                                  attempts: seq<Attempt>, spec: nat, dest: Name, cut: nat)
    requires spec < |specs| == |sys.worktrees| && Labelled(owner, |specs|, attempts) && owner(dest) == spec
    requires Distinct(specs[spec]) && 0 < |specs[spec]| && NothingArchived(sys, owner, spec)
    requires Exec(specs[spec], dest, sha, View(History(specs, sha, sys, attempts), spec), Check, cut).1 == Done
    ensures var disk := Exec(specs[spec], dest, sha, View(History(specs, sha, sys, attempts), spec), Check, cut).0;
      && Archived(specs[spec], sys.worktrees[spec], dest, disk)
      && disk.archives[dest].manifest == Some(Manifest(Inventory(Local(disk.archives[dest]), sha), true, true))
      && OnlyBuildLeft(disk.evidence)
  {
    var children, original := specs[spec], sys.worktrees[spec];
    var before := View(History(specs, sha, sys, attempts), spec);
    NothingArchivedIsLayout(children, sys, owner, spec);
    var m, home := HistoryKeepsLayout(specs, original, owner, sha, sys, attempts, spec);
    m, home := ExecKeepsRunning(children, original, Mine(owner, spec), dest, sha, before, Check, cut, m, home);
    ExecKeepsWritten(children, dest, sha, before, Check, cut);
    BuildOnlyIff(Exec(children, dest, sha, before, Check, cut).0.evidence, sha);
    AllFirst(children);
  }

  lemma AllFirst(children: seq<Name>)
    ensures forall k :: 0 <= k < |children| ==> children[k] in FirstChildren(children, |children|)
  {
  }
}
