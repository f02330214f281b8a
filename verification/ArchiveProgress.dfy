/** What an archival run achieves when it is not cut: fresh, or rerun after its last move. */
module ArchiveProgress {
  import opened Basics
  import opened Archive
  import opened ArchiveHistory

  // The metadata.

  /** Writing the manifest, the first of the four files. */
  lemma ManifestSteps(children: seq<Name>, dest: Name, sha: Content -> Digest, disk: Disk, cut: nat)
    requires dest in disk.archives && 2 <= cut
    ensures var manifest := GoodManifest(Local(disk.archives[dest]), disk.evidence, sha);
      Exec(children, dest, sha, disk, TakeInventory, cut)
        == Exec(children, dest, sha, SetDestination(disk, dest, disk.archives[dest].(manifest := Some(manifest))),
                WriteCsv(manifest.files, manifest.regenerableBuildCacheOnly), cut - 2)
  {
    var rows, remaining := Inventory(Local(disk.archives[dest]), sha), Inventory(disk.evidence, sha);
    assert HashesMatch(rows, Local(disk.archives[dest]), sha);
    var manifest := GoodManifest(Local(disk.archives[dest]), disk.evidence, sha);
    var written := SetDestination(disk, dest, disk.archives[dest].(manifest := Some(manifest)));
    OneStep(children, dest, sha, disk, TakeInventory, cut, disk, WriteManifest(rows, remaining));
    OneStep(children, dest, sha, disk, WriteManifest(rows, remaining), cut - 1, written,
            WriteCsv(rows, BuildOnly(remaining)));
  }

  /** The other three files, and the final decision. */
  lemma ListingSteps(children: seq<Name>, dest: Name, sha: Content -> Digest, disk: Disk, rows: Rows, pass: bool,
                     cut: nat)
    requires dest in disk.archives && 4 <= cut
    ensures Exec(children, dest, sha, disk, WriteCsv(rows, pass), cut)
         == (SetDestination(disk, dest, disk.archives[dest].(csv := Some(rows), hashes := Some(rows), readme := true)),
             if pass then Done else Raised(VerificationFailed))
  {
    var d3 := disk.archives[dest].(csv := Some(rows));
    var d4 := d3.(hashes := Some(rows));
    var d5 := d4.(readme := true);
    SetTwice(disk, dest, d3, d4);
    SetTwice(disk, dest, d4, d5);
    var disk3, disk4 := SetDestination(disk, dest, d3), SetDestination(disk, dest, d4);
    OneStep(children, dest, sha, disk, WriteCsv(rows, pass), cut, disk3, WriteHashes(rows, pass));
    OneStep(children, dest, sha, disk3, WriteHashes(rows, pass), cut - 1, disk4, WriteReadme(pass));
    GateSteps(children, dest, sha, disk4, pass, cut - 2, SetDestination(disk, dest, d5));
  }

  lemma GateSteps(children: seq<Name>, dest: Name, sha: Content -> Digest, disk: Disk, pass: bool, cut: nat,
                  last: Disk)
    requires dest in disk.archives && 2 <= cut
    requires last == SetDestination(disk, dest, disk.archives[dest].(readme := true))
    ensures Exec(children, dest, sha, disk, WriteReadme(pass), cut)
         == (last, if pass then Done else Raised(VerificationFailed))
  {
    var end := if pass then Done else Raised(VerificationFailed);
    OneStep(children, dest, sha, disk, WriteReadme(pass), cut, last, Gate(pass));
    OneStep(children, dest, sha, last, Gate(pass), cut - 1, last, end);
    assert Exec(children, dest, sha, last, end, cut - 2) == (last, end);
  }

  /** From the inventory on, six more steps write the four metadata files and decide; no child moves. */
  lemma MetadataSteps(children: seq<Name>, dest: Name, sha: Content -> Digest, disk: Disk, cut: nat)
    requires dest in disk.archives && 6 <= cut
    ensures var local := disk.archives[dest].local;
      var manifest := GoodManifest(Local(disk.archives[dest]), disk.evidence, sha);
      var finished := Destination(local, Some(manifest), Some(manifest.files), Some(manifest.files), true);
      Exec(children, dest, sha, disk, TakeInventory, cut)
        == (SetDestination(disk, dest, finished),
            if manifest.regenerableBuildCacheOnly then Done else Raised(VerificationFailed))
  {
    var manifest := GoodManifest(Local(disk.archives[dest]), disk.evidence, sha);
    var d := disk.archives[dest].(manifest := Some(manifest));
    ManifestSteps(children, dest, sha, disk, cut);
    ListingSteps(children, dest, sha, SetDestination(disk, dest, d), manifest.files,
                 manifest.regenerableBuildCacheOnly, cut - 2);
    SetTwice(disk, dest, d, d.(csv := Some(manifest.files), hashes := Some(manifest.files), readme := true));
  }

  // The moves.

  function JustLocal(local: Directory): Destination {
    EMPTY_DESTINATION.(local := Some(local))
  }

  /** The disk once all children have moved from `original` into a destination. */
  function AllMoved(children: seq<Name>, original: Directory, dest: Name, archives: map<Name, Destination>): Disk {
    var names := FirstChildren(children, |children|);
    Disk(Without(original, names), archives[dest := JustLocal(Only(original, names))])
  }

  /** The disk after moving the children from the i-th on. */
  function MoveAll(children: seq<Name>, i: nat, dest: Name, disk: Disk): Disk
    requires Distinct(children) && i <= |children| && dest in disk.archives && StillThere(children, i, disk)
    decreases |children| - i
  {
    if i == |children| then disk
    else
      assert forall k :: i < k < |children| ==> children[k] != children[i];
      MoveAll(children, i + 1, dest, MoveChild(disk, dest, children[i]))
  }

  lemma MoveAllStep(children: seq<Name>, i: nat, dest: Name, disk: Disk)
    requires Distinct(children) && i < |children| && dest in disk.archives && StillThere(children, i, disk)
    ensures StillThere(children, i + 1, MoveChild(disk, dest, children[i]))
    ensures MoveAll(children, i, dest, disk) == MoveAll(children, i + 1, dest, MoveChild(disk, dest, children[i]))
  {
    assert forall k :: i < k < |children| ==> children[k] != children[i];
  }

  /** The moves of a fresh run, one step each; `left` steps remain after the last of them. */
  lemma {:induction false} MoveSteps(children: seq<Name>, dest: Name, sha: Content -> Digest, disk: Disk, i: nat,
                                     cut: nat, left: nat)
    requires Distinct(children) && i <= |children| && dest in disk.archives && StillThere(children, i, disk)
    requires cut == |children| - i + 1 + left
    ensures Exec(children, dest, sha, disk, Move(i), cut)
         == Exec(children, dest, sha, MoveAll(children, i, dest, disk), TakeInventory, left)
    decreases |children| - i
  {
    if i == |children| {
      OneStep(children, dest, sha, disk, Move(i), cut, disk, TakeInventory);
    } else {
      var next := MoveChild(disk, dest, children[i]);
      MoveIsOneStep(children, dest, sha, disk, i, cut);
      MoveAllStep(children, i, dest, disk);
      MoveSteps(children, dest, sha, next, i + 1, cut - 1, left);
      calc {
        Exec(children, dest, sha, disk, Move(i), cut);
        Exec(children, dest, sha, next, Move(i + 1), cut - 1);
        Exec(children, dest, sha, MoveAll(children, i + 1, dest, next), TakeInventory, left);
        Exec(children, dest, sha, MoveAll(children, i, dest, disk), TakeInventory, left);
      }
    }
  }

  /** The first i children have moved into a destination that holds nothing else. */
  ghost predicate PartlyMoved(children: seq<Name>, original: Directory, i: nat, dest: Name, disk: Disk) {
    && i <= |children| && dest in disk.archives
    && disk.archives[dest] == JustLocal(Only(original, FirstChildren(children, i)))
    && disk.evidence == Without(original, FirstChildren(children, i))
  }

  lemma PartlyMovedStep(children: seq<Name>, original: Directory, i: nat, dest: Name, disk: Disk)
    requires Distinct(children) && PartlyMoved(children, original, i, dest, disk)
    requires i < |children| && StillThere(children, i, disk)
    ensures PartlyMoved(children, original, i + 1, dest, MoveChild(disk, dest, children[i]))
    ensures MoveChild(disk, dest, children[i]).archives == disk.archives[dest :=
              MoveChild(disk, dest, children[i]).archives[dest]]
  {
    var names, child := FirstChildren(children, i), children[i];
    assert FirstChildren(children, i + 1) == names + {child};
    assert child in disk.evidence && disk.evidence[child] == original[child];
    assert Only(original, names)[child := original[child]] == Only(original, names + {child});
    assert Without(original, names) - {child} == Without(original, names + {child});
  }

  lemma {:induction false} MoveAllMoves(children: seq<Name>, original: Directory, i: nat, dest: Name, disk: Disk)
    requires Distinct(children) && PartlyMoved(children, original, i, dest, disk) && StillThere(children, i, disk)
    ensures MoveAll(children, i, dest, disk) == AllMoved(children, original, dest, disk.archives)
    decreases |children| - i
  {
    if i == |children| {
      assert disk.archives[dest := disk.archives[dest]] == disk.archives;
    } else {
      var disk1 := MoveChild(disk, dest, children[i]);
      MoveAllStep(children, i, dest, disk);
      PartlyMovedStep(children, original, i, dest, disk);
      MoveAllMoves(children, original, i + 1, dest, disk1);
      AllMovedForgets(children, original, dest, disk.archives, disk1.archives[dest]);
    }
  }

  lemma AllMovedForgets(children: seq<Name>, original: Directory, dest: Name, archives: map<Name, Destination>,
                        d: Destination)
    ensures AllMoved(children, original, dest, archives[dest := d]) == AllMoved(children, original, dest, archives)
  {
    var moved := JustLocal(Only(original, FirstChildren(children, |children|)));
    assert archives[dest := d][dest := moved] == archives[dest := moved];
  }

  // A fresh run.

  /** The evidence is complete and the destination is new; the archive parent may hold anything else. */
  predicate Unarchived(children: seq<Name>, dest: Name, disk: Disk) {
    dest !in disk.archives && StillThere(children, 0, disk)
  }

  /** The first three steps of a fresh run. */
  lemma OpeningSteps(children: seq<Name>, dest: Name, sha: Content -> Digest, disk: Disk, cut: nat)
    requires Unarchived(children, dest, disk) && 3 <= cut
    ensures Exec(children, dest, sha, disk, Check, cut)
         == Exec(children, dest, sha, SetDestination(disk, dest, JustLocal(map[])), Move(0), cut - 3)
  {
    var d1 := SetDestination(disk, dest, EMPTY_DESTINATION);
    var d2 := SetDestination(disk, dest, JustLocal(map[]));
    SetTwice(disk, dest, EMPTY_DESTINATION, JustLocal(map[]));
    OneStep(children, dest, sha, disk, Check, cut, disk, MakeDestination);
    OneStep(children, dest, sha, disk, MakeDestination, cut - 1, d1, MakeLocal);
    OneStep(children, dest, sha, d1, MakeLocal, cut - 2, d2, Move(0));
  }

  lemma StartedRunMoves(children: seq<Name>, dest: Name, sha: Content -> Digest, disk: Disk, started: Disk, cut: nat,
                        rest: nat)
    requires Distinct(children) && rest + 1 + |children| == cut && Unarchived(children, dest, disk)
    requires started == SetDestination(disk, dest, JustLocal(map[]))
    ensures Exec(children, dest, sha, started, Move(0), cut)
         == Exec(children, dest, sha, AllMoved(children, disk.evidence, dest, disk.archives), TakeInventory, rest)
  {
    MoveSteps(children, dest, sha, started, 0, cut, rest);
    StartedMovesAll(children, dest, disk, started);
  }

  lemma StartedMovesAll(children: seq<Name>, dest: Name, disk: Disk, started: Disk)
    requires Distinct(children) && StillThere(children, 0, disk)
    requires started == SetDestination(disk, dest, JustLocal(map[]))
    ensures MoveAll(children, 0, dest, started) == AllMoved(children, disk.evidence, dest, disk.archives)
  {
    assert FirstChildren(children, 0) == {};
    assert Only(disk.evidence, {}) == map[];
    MoveAllMoves(children, disk.evidence, 0, dest, started);
    AllMovedForgets(children, disk.evidence, dest, disk.archives, JustLocal(map[]));
  }

  lemma FreshRunMoves(children: seq<Name>, dest: Name, sha: Content -> Digest, disk: Disk, cut: nat, rest: nat,
                      moved: Disk)
    requires Distinct(children) && cut == 4 + |children| + rest && Unarchived(children, dest, disk)
    requires moved == AllMoved(children, disk.evidence, dest, disk.archives)
    ensures Exec(children, dest, sha, disk, Check, cut) == Exec(children, dest, sha, moved, TakeInventory, rest)
  {
    OpeningSteps(children, dest, sha, disk, cut);
    StartedRunMoves(children, dest, sha, disk, SetDestination(disk, dest, JustLocal(map[])), cut - 3, rest);
  }

  lemma {:induction false} MovesSoFar(children: seq<Name>, original: Directory, dest: Name, sha: Content -> Digest,
                                      disk: Disk, i: nat, k: nat)
    requires Distinct(children) && i + k <= |children|
    requires PartlyMoved(children, original, i, dest, disk) && StillThere(children, i, disk)
    ensures var (disk', pc') := Exec(children, dest, sha, disk, Move(i), k);
      pc' == Move(i + k) && PartlyMoved(children, original, i + k, dest, disk')
    decreases k
  {
    if k == 0 {
    } else {
      var next := MoveChild(disk, dest, children[i]);
      MoveIsOneStep(children, dest, sha, disk, i, k);
      PartlyMovedStep(children, original, i, dest, disk);
      MovesSoFar(children, original, dest, sha, next, i + 1, k - 1);
    }
  }

  /** Main fact, one child per step: a fresh run cut after the three opening steps and i more has archived the first i
      children and left the others. */
  lemma FreshRunCutAfterMoves(children: seq<Name>, dest: Name, sha: Content -> Digest, disk: Disk, i: nat, j: nat)
    requires Distinct(children) && i <= |children| && j < |children| && Unarchived(children, dest, disk)
    ensures var disk' := Exec(children, dest, sha, disk, Check, 3 + i).0;
      && dest in disk'.archives && disk'.archives[dest].local.Some?
      && var local := disk'.archives[dest].local.value;
         && (children[j] in local <==> j < i) && (children[j] in disk'.evidence <==> i <= j)
         && (j < i ==> local[children[j]] == disk.evidence[children[j]])
         && (i <= j ==> disk'.evidence[children[j]] == disk.evidence[children[j]])
  {
    var started := SetDestination(disk, dest, JustLocal(map[]));
    OpeningSteps(children, dest, sha, disk, 3 + i);
    assert FirstChildren(children, 0) == {} && Only(disk.evidence, {}) == map[];
    MovesSoFar(children, disk.evidence, dest, sha, started, 0, i);
    assert children[j] in FirstChildren(children, i) <==> j < i by {
      if children[j] in FirstChildren(children, i) {
        var k :| 0 <= k < i && children[k] == children[j];
      }
    }
  }

  function Finished(local: Directory, manifest: Manifest): Destination {
    Destination(Some(local), Some(manifest), Some(manifest.files), Some(manifest.files), true)
  }

  /** Main fact, progress: beside whatever else the archive parent holds, a fresh run that is not cut archives
      every child unchanged, writes the verified inventory as its manifest, and returns normally exactly when only
      files below build/ remain. */
  lemma FreshRunCompletes(children: seq<Name>, dest: Name, sha: Content -> Digest, disk: Disk, cut: nat)
    requires Distinct(children) && |children| + 10 <= cut && Unarchived(children, dest, disk)
    ensures var (disk', pc') := Exec(children, dest, sha, disk, Check, cut);
      var local := Only(disk.evidence, FirstChildren(children, |children|));
      var left := Without(disk.evidence, FirstChildren(children, |children|));
      && disk' == Disk(left, disk.archives[dest := Finished(local, GoodManifest(local, left, sha))])
      && pc' == if BuildOnly(Inventory(left, sha)) then Done else Raised(VerificationFailed)
  {
    var moved := AllMoved(children, disk.evidence, dest, disk.archives);
    FreshRunMoves(children, dest, sha, disk, cut, cut - 4 - |children|, moved);
    MovedRunCompletes(children, dest, sha, moved, cut - 4 - |children|,
                      Disk(Without(disk.evidence, FirstChildren(children, |children|)), disk.archives),
                      Only(disk.evidence, FirstChildren(children, |children|)));
  }

  /** The same, entry by entry: every child is archived and nothing else, the worktree keeps the rest, the three lists
      are the inventory of the archive, and the run returns iff the rest is the directory "build" and empty
      directories. */
  lemma FreshRunOutcome(children: seq<Name>, dest: Name, sha: Content -> Digest, disk: Disk, cut: nat, n: Name)
    requires Distinct(children) && |children| + 10 <= cut && Unarchived(children, dest, disk)
    ensures var (disk', pc') := Exec(children, dest, sha, disk, Check, cut);
      && dest in disk'.archives && disk'.archives[dest].local.Some?
      && var local := disk'.archives[dest].local.value;
         && (n in local <==> n in children)
         && (n in local ==> n in disk.evidence && local[n] == disk.evidence[n])
         && (n in disk'.evidence <==> n in disk.evidence && n !in children)
         && (n in disk'.evidence ==> disk'.evidence[n] == disk.evidence[n])
         && disk'.archives[dest].manifest == Some(Manifest(Inventory(local, sha), true, pc' == Done))
         && disk'.archives[dest].csv == disk'.archives[dest].hashes == Some(Inventory(local, sha))
         && (pc' == Done || pc' == Raised(VerificationFailed))
         && (pc' == Done <==> forall e :: e in disk.evidence && e !in children ==>
               disk.evidence[e].Dir? && (e == "build" || disk.evidence[e].files == map[]))
  {
    var names := FirstChildren(children, |children|);
    var left := Without(disk.evidence, names);
    FreshRunCompletes(children, dest, sha, disk, cut);
    BuildOnlyIff(left, sha);
    assert forall e :: e in names <==> e in children;
    assert forall e :: e in left <==> e in disk.evidence && e !in children;
  }

  /** Main fact, the archive's README: it is written before the verdict and says that only build files remain; from any
      disk, when a run gets as far as its verdict, that is true iff the run returns. */
  lemma ReadmeHoldsIff(children: seq<Name>, dest: Name, sha: Content -> Digest, disk: Disk, cut: nat)
    requires dest in disk.archives ==> Staged(disk.archives[dest])
    ensures var (disk', pc') := Exec(children, dest, sha, disk, Check, cut);
      pc' == Done || pc' == Raised(VerificationFailed) ==>
        && dest in disk'.archives && disk'.archives[dest].readme
        && (OnlyBuildLeft(disk'.evidence) <==> pc' == Done)
  {
    ExecKeepsStaging(children, dest, sha, disk, Check, cut);
    ExecKeepsWritten(children, dest, sha, disk, Check, cut);
    BuildOnlyIff(Exec(children, dest, sha, disk, Check, cut).0.evidence, sha);
  }

  lemma MovedRunCompletes(children: seq<Name>, dest: Name, sha: Content -> Digest, moved: Disk, cut: nat, disk: Disk,
                          local: Directory)
    requires 6 <= cut && moved == SetDestination(disk, dest, JustLocal(local))
    ensures var manifest := GoodManifest(local, disk.evidence, sha);
      Exec(children, dest, sha, moved, TakeInventory, cut)
        == (SetDestination(disk, dest, Finished(local, manifest)),
            if manifest.regenerableBuildCacheOnly then Done else Raised(VerificationFailed))
  {
    MetadataSteps(children, dest, sha, moved, cut);
    SetTwice(disk, dest, JustLocal(local), Finished(local, GoodManifest(local, disk.evidence, sha)));
  }

  // A rerun.

  /** A run that moved nothing, and if it got through `need` steps, described the destination and decided. */
  ghost predicate Recovered(disk: Disk, dest: Name, sha: Content -> Digest, disk': Disk, pc': Pc, cut: nat, need: nat) {
    && NothingMoved(disk, disk')
    && (need <= cut && dest in disk.archives ==>
         && disk'.archives[dest].manifest == Some(GoodManifest(Local(disk.archives[dest]), disk.evidence, sha))
         && pc' == if BuildOnly(Inventory(disk.evidence, sha)) then Done else Raised(VerificationFailed))
  }

  /** Main fact, recovery: once all children have moved, a rerun for the same destination moves nothing, wherever
      it is cut, and if it is not cut it completes exactly as an undisturbed run would. */
  lemma RerunAfterLastMove(children: seq<Name>, original: Directory, mine: Name -> bool, disk: Disk, dest: Name,
                           sha: Content -> Digest, cut: nat)
    requires mine(dest) && Distinct(children) && 0 < |children|
    requires Layout(children, original, mine, disk, |children|, dest)
    ensures dest in disk.archives
    ensures var (disk', pc') := Exec(children, dest, sha, disk, Check, cut);
      Recovered(disk, dest, sha, disk', pc', cut, 7)
  {
    if cut == 0 {
    } else {
      RerunSkipsMoves(children, original, mine, disk, dest, sha, cut);
      MetadataRecovers(children, dest, sha, disk, cut - 1);
      var (disk', pc') := Exec(children, dest, sha, disk, TakeInventory, cut - 1);
      RecoveredLater(disk, dest, sha, disk', pc', cut);
    }
  }

  lemma RecoveredLater(disk: Disk, dest: Name, sha: Content -> Digest, disk': Disk, pc': Pc, cut: nat)
    requires dest in disk.archives && 0 < cut && Recovered(disk, dest, sha, disk', pc', cut - 1, 6)
    ensures Recovered(disk, dest, sha, disk', pc', cut, 7)
  {
  }

  lemma MetadataRecovers(children: seq<Name>, dest: Name, sha: Content -> Digest, disk: Disk, cut: nat)
    requires dest in disk.archives
    ensures var (disk', pc') := Exec(children, dest, sha, disk, TakeInventory, cut);
      Recovered(disk, dest, sha, disk', pc', cut, 6)
  {
    MetadataMovesNothing(children, dest, sha, disk, TakeInventory, cut);
    if 6 <= cut {
      MetadataIsWritten(children, dest, sha, disk, cut);
    }
  }

  lemma RerunSkipsMoves(children: seq<Name>, original: Directory, mine: Name -> bool, disk: Disk, dest: Name,
                        sha: Content -> Digest, cut: nat)
    requires mine(dest) && Distinct(children) && 0 < |children| && 0 < cut
    requires Layout(children, original, mine, disk, |children|, dest)
    ensures Exec(children, dest, sha, disk, Check, cut) == Exec(children, dest, sha, disk, TakeInventory, cut - 1)
  {
    LocalIsMade(children, original, mine, disk, dest);
    CheckKeepsRunning(children, original, mine, dest, disk, |children|, dest);
    OneStep(children, dest, sha, disk, Check, cut, disk, TakeInventory);
  }

  lemma LocalIsMade(children: seq<Name>, original: Directory, mine: Name -> bool, disk: Disk, dest: Name)
    requires mine(dest) && 0 < |children| && Layout(children, original, mine, disk, |children|, dest)
    ensures disk.archives[dest].local.Some?
  {
    AllFirst(children);
    assert children[0] in Local(disk.archives[dest]);
  }

  lemma MetadataIsWritten(children: seq<Name>, dest: Name, sha: Content -> Digest, disk: Disk, cut: nat)
    requires dest in disk.archives && 6 <= cut
    ensures var (disk', pc') := Exec(children, dest, sha, disk, TakeInventory, cut);
      && dest in disk'.archives
      && disk'.archives[dest].manifest == Some(GoodManifest(Local(disk.archives[dest]), disk.evidence, sha))
      && pc' == if BuildOnly(Inventory(disk.evidence, sha)) then Done else Raised(VerificationFailed)
  {
    MetadataSteps(children, dest, sha, disk, cut);
  }

  /** The same worktree, and the same evidence in the same destinations. */
  ghost predicate NothingMoved(disk: Disk, disk': Disk) {
    && disk'.evidence == disk.evidence
    && (forall d :: d in disk'.archives <==> d in disk.archives)
    && (forall d :: d in disk.archives ==> Local(disk'.archives[d]) == Local(disk.archives[d]))
  }

  lemma NothingMovedTwice(a: Disk, b: Disk, c: Disk)
    requires NothingMoved(a, b) && NothingMoved(b, c)
    ensures NothingMoved(a, c)
  {
  }

  predicate AfterMoves(pc: Pc) {
    WritesMetadata(pc) || pc.Gate? || Terminal(pc)
  }

  lemma MetadataStepMovesNothing(children: seq<Name>, dest: Name, sha: Content -> Digest, disk: Disk, pc: Pc)
    requires CanStep(children, dest, disk, pc) && AfterMoves(pc)
    ensures var (disk', pc') := Step(children, dest, sha, disk, pc); AfterMoves(pc') && NothingMoved(disk, disk')
  {
  }

  lemma {:induction false} MetadataMovesNothing(children: seq<Name>, dest: Name, sha: Content -> Digest, disk: Disk,
                                                pc: Pc, cut: nat)
    requires AfterMoves(pc)
    ensures NothingMoved(disk, Exec(children, dest, sha, disk, pc, cut).0)
    decreases cut
  {
    if cut == 0 || Terminal(pc) || !CanStep(children, dest, disk, pc) {
    } else {
      var (disk1, pc1) := Step(children, dest, sha, disk, pc);
      MetadataStepMovesNothing(children, dest, sha, disk, pc);
      MetadataMovesNothing(children, dest, sha, disk1, pc1, cut - 1);
      var after := Exec(children, dest, sha, disk1, pc1, cut - 1).0;
      NothingMovedTwice(disk, disk1, after);
      assert Exec(children, dest, sha, disk, pc, cut).0 == after by {
        OneStep(children, dest, sha, disk, pc, cut, disk1, pc1);
      }
    }
  }
}
