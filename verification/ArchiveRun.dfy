/** `_archive_one` as it changes the disk, cut by a crash after any number of steps. */
module ArchiveRun {
  import opened Basics
  import opened Archive
  import opened ArchiveHistory

  /** The labels and the evidence children of the two shipped specifications. */
  const LABELS: seq<Name> := ["compiled-exact-sign", "compiled-kernel"]
  const EXACT_SIGN_CHILDREN: seq<Name> := ["assets", "experiments", "geometry", "patches", "reports"]
  const KERNEL_CHILDREN: seq<Name> := ["experiments", "patches", "reports"]
  const SPECS: seq<seq<Name>> := [EXACT_SIGN_CHILDREN, KERNEL_CHILDREN]

  class Storage {
    var evidence: Directory
    var archives: map<Name, Destination>

    constructor (evidence: Directory, archives: map<Name, Destination>)
      ensures this.evidence == evidence && this.archives == archives
    {
      this.evidence := evidence;
      this.archives := archives;
    }

    function State(): Disk
      reads this
    {
      Disk(evidence, archives)
    }

    method Write(dest: Name, d: Destination)
      modifies this`archives
      ensures archives == old(archives)[dest := d]
    {
      archives := archives[dest := d];
    }

    /** The run gets through `cut` steps; the result is the step it would take next, or how it ended. */
    method ArchiveOne(children: seq<Name>, dest: Name, sha: Content -> Digest, cut: nat) returns (pc: Pc)
      requires Distinct(children)
      modifies this
      ensures (State(), pc) == Exec(children, dest, sha, old(State()), Check, cut)
    {
      if cut == 0 {
        return Check;
      }
      var fuel := cut - 1;
      if dest in archives {
        var local := archives[dest].local;
        if local.None? || exists k :: 0 <= k < |children| && children[k] !in local.value {
          return Raised(Incomplete);
        }
        if exists k :: 0 <= k < |children| && children[k] in evidence {
          return Raised(Ambiguous);
        }
      } else {
        if exists k :: 0 <= k < |children| && children[k] !in evidence {
          return Raised(SourcesMissing);
        }
        pc, fuel := CreateAndMove(children, dest, sha, fuel);
        if !pc.TakeInventory? {
          return;
        }
      }
      pc := WriteArchiveMetadata(children, dest, sha, fuel);
    }

    method CreateAndMove(children: seq<Name>, dest: Name, sha: Content -> Digest, budget: nat)
      returns (pc: Pc, fuel: nat)
      requires Distinct(children) && dest !in archives && StillThere(children, 0, State())
      modifies this
      ensures Exec(children, dest, sha, State(), pc, fuel)
           == Exec(children, dest, sha, old(State()), MakeDestination, budget)
      ensures pc.TakeInventory? ==> dest in archives
      ensures !pc.TakeInventory? ==> fuel == 0
    {
      if budget == 0 {
        return MakeDestination, 0;
      }
      ghost var before := State();
      Write(dest, EMPTY_DESTINATION);
      OneStep(children, dest, sha, before, MakeDestination, budget, State(), MakeLocal);
      if budget == 1 {
        return MakeLocal, 0;
      }
      ghost var made := State();
      Write(dest, archives[dest].(local := Some(map[])));
      OneStep(children, dest, sha, made, MakeLocal, budget - 1, State(), Move(0));
      pc, fuel := MoveChildren(children, dest, sha, budget - 2);
    }

    method MoveChildren(children: seq<Name>, dest: Name, sha: Content -> Digest, budget: nat)
      returns (pc: Pc, fuel: nat)
      requires Distinct(children) && dest in archives && StillThere(children, 0, State())
      modifies this
      ensures Exec(children, dest, sha, State(), pc, fuel) == Exec(children, dest, sha, old(State()), Move(0), budget)
      ensures pc.TakeInventory? ==> dest in archives
      ensures !pc.TakeInventory? ==> fuel == 0
    {
      fuel := budget;
      for i := 0 to |children|
        invariant dest in archives && StillThere(children, i, State())
        invariant Exec(children, dest, sha, State(), Move(i), fuel)
               == Exec(children, dest, sha, old(State()), Move(0), budget)
      {
        if fuel == 0 {
          return Move(i), 0;
        }
        ghost var before := State();
        MoveOneChild(dest, children[i]);
        MoveIsOneStep(children, dest, sha, before, i, fuel);
        fuel := fuel - 1;
      }
      if fuel == 0 {
        return Move(|children|), 0;
      }
      OneStep(children, dest, sha, State(), Move(|children|), fuel, State(), TakeInventory);
      return TakeInventory, fuel - 1;
    }

    /** shutil.move within one device. */
    method MoveOneChild(dest: Name, child: Name)
      requires dest in archives && child in evidence
      modifies this
      ensures State() == MoveChild(old(State()), dest, child)
    {
      var d := archives[dest];
      archives := archives[dest := d.(local := Some(Local(d)[child := evidence[child]]))];
      evidence := evidence - {child};
    }

    /** `_inventory` of both places, `_write_archive_metadata` and its final check. */
    method WriteArchiveMetadata(children: seq<Name>, dest: Name, sha: Content -> Digest, fuel: nat)
      returns (pc: Pc)
      requires dest in archives
      modifies this
      ensures (State(), pc) == Exec(children, dest, sha, old(State()), TakeInventory, fuel)
    {
      if fuel == 0 { return TakeInventory; }
      var rows, remaining := Inventory(Local(archives[dest]), sha), Inventory(evidence, sha);
      OneStep(children, dest, sha, State(), TakeInventory, fuel, State(), WriteManifest(rows, remaining));
      if fuel == 1 { return WriteManifest(rows, remaining); }
      var verified := HashesMatch(rows, Local(archives[dest]), sha);
      pc := WriteManifestFile(children, dest, sha, rows, remaining, verified, fuel - 1);
    }

    method WriteManifestFile(children: seq<Name>, dest: Name, sha: Content -> Digest, rows: Rows, remaining: Rows,
                             verified: bool, fuel: nat)
      returns (pc: Pc)
      requires dest in archives && verified == HashesMatch(rows, Local(archives[dest]), sha) && 1 <= fuel
      modifies this
      ensures (State(), pc) == Exec(children, dest, sha, old(State()), WriteManifest(rows, remaining), fuel)
    {
      var pass := verified && BuildOnly(remaining);
      ghost var before := State();
      Write(dest, archives[dest].(manifest := Some(Manifest(rows, verified, BuildOnly(remaining)))));
      OneStep(children, dest, sha, before, WriteManifest(rows, remaining), fuel, State(), WriteCsv(rows, pass));
      pc := WriteListings(children, dest, sha, rows, pass, fuel - 1);
    }

    method WriteListings(children: seq<Name>, dest: Name, sha: Content -> Digest, rows: Rows, pass: bool, fuel: nat)
      returns (pc: Pc)
      requires dest in archives
      modifies this
      ensures (State(), pc) == Exec(children, dest, sha, old(State()), WriteCsv(rows, pass), fuel)
    {
      if fuel == 0 { return WriteCsv(rows, pass); }
      ghost var before := State();
      Write(dest, archives[dest].(csv := Some(rows)));
      OneStep(children, dest, sha, before, WriteCsv(rows, pass), fuel, State(), WriteHashes(rows, pass));
      if fuel == 1 { return WriteHashes(rows, pass); }
      before := State();
      Write(dest, archives[dest].(hashes := Some(rows)));
      OneStep(children, dest, sha, before, WriteHashes(rows, pass), fuel - 1, State(), WriteReadme(pass));
      pc := WriteReadmeAndCheck(children, dest, sha, pass, fuel - 2);
    }

    method WriteReadmeAndCheck(children: seq<Name>, dest: Name, sha: Content -> Digest, pass: bool, fuel: nat)
      returns (pc: Pc)
      requires dest in archives
      modifies this
      ensures (State(), pc) == Exec(children, dest, sha, old(State()), WriteReadme(pass), fuel)
    {
      if fuel == 0 { return WriteReadme(pass); }
      ghost var before := State();
      Write(dest, archives[dest].(readme := true));
      OneStep(children, dest, sha, before, WriteReadme(pass), fuel, State(), Gate(pass));
      if fuel == 1 { return Gate(pass); }
      pc := if pass then Done else Raised(VerificationFailed);
      OneStep(children, dest, sha, State(), Gate(pass), fuel - 1, State(), pc);
    }
  }

  /** The shipped specifications meet the distinctness the protocol needs. */
  lemma ShippedChildrenAreDistinct()
    ensures Distinct(EXACT_SIGN_CHILDREN) && Distinct(KERNEL_CHILDREN)
  {
    assert EXACT_SIGN_CHILDREN[0][0] == 'a' && EXACT_SIGN_CHILDREN[1][0] == 'e' && EXACT_SIGN_CHILDREN[2][0] == 'g'
        && EXACT_SIGN_CHILDREN[3][0] == 'p' && EXACT_SIGN_CHILDREN[4][0] == 'r';
    assert KERNEL_CHILDREN[0][0] == 'e' && KERNEL_CHILDREN[1][0] == 'p' && KERNEL_CHILDREN[2][0] == 'r';
  }

  // The shipped specifications share one archive parent and are told apart by their labels.

  /** f"{label}_{timestamp}_{commit}". */
  function DestinationName(spec: nat, timestamp: string, commit: string): Name
    requires spec < |LABELS|
  {
    (LABELS[spec] + "_") + (timestamp + "_" + commit)
  }

  /** The shipped destinations' names, spelled out. */
  lemma ShippedNames(timestamp: string, commit: string)
    ensures DestinationName(0, timestamp, commit) == "compiled-exact-sign" + "_" + timestamp + "_" + commit
    ensures DestinationName(1, timestamp, commit) == "compiled-kernel" + "_" + timestamp + "_" + commit
  {
    ConcatAssociative("compiled-exact-sign" + "_", timestamp + "_", commit);
    ConcatAssociative("compiled-exact-sign" + "_", timestamp, "_");
    ConcatAssociative("compiled-kernel" + "_", timestamp + "_", commit);
    ConcatAssociative("compiled-kernel" + "_", timestamp, "_");
  }

  /** The specification whose label a destination carries; none of them for anything else in the parent. */
  function Owner(d: Name): nat {
    if StartsWith(d, LABELS[0] + "_") then 0 else if StartsWith(d, LABELS[1] + "_") then 1 else |LABELS|
  }

  lemma OwnerOfName(spec: nat, timestamp: string, commit: string)
    requires spec < |LABELS|
    ensures Owner(DestinationName(spec, timestamp, commit)) == spec
  {
    var name := DestinationName(spec, timestamp, commit);
    PrefixOfConcat(LABELS[spec] + "_", timestamp + "_" + commit);
    if spec == 1 {
      assert name[9] == (LABELS[1] + "_")[9] == 'k';
      assert (LABELS[0] + "_")[9] == 'e';
    }
  }

  lemma PrefixOfConcat(start: string, rest: string)
    ensures StartsWith(start + rest, start)
    ensures forall i :: 0 <= i < |start| ==> (start + rest)[i] == start[i]
  {
  }

  /** A run as `main` makes it: its destination is named after its specification. */
  ghost predicate NamedAfterLabel(a: Attempt) {
    a.spec < |LABELS| && exists timestamp, commit :: a.dest == DestinationName(a.spec, timestamp, commit)
  }

  lemma NamedIsLabelled(attempts: seq<Attempt>)
    requires forall k :: 0 <= k < |attempts| ==> NamedAfterLabel(attempts[k])
    ensures Labelled(Owner, |SPECS|, attempts)
  {
    forall k | 0 <= k < |attempts| ensures attempts[k].spec < |SPECS| && Owner(attempts[k].dest) == attempts[k].spec {
      var a := attempts[k];
      assert NamedAfterLabel(a);
      var timestamp, commit :| a.dest == DestinationName(a.spec, timestamp, commit);
      OwnerOfName(a.spec, timestamp, commit);
    }
  }

  /** Main fact, as shipped: in every history of `main` runs, with any timestamps and commits and cut anywhere, from
      two complete worktrees and an archive parent without destinations of theirs, no evidence child of either is
      lost, duplicated or changed. */
  lemma ShippedEvidenceIsNeverLost(sha: Content -> Digest, sys: System, attempts: seq<Attempt>, spec: nat)
    requires spec < |SPECS| == |sys.worktrees|
    requires forall k :: 0 <= k < |attempts| ==> NamedAfterLabel(attempts[k])
    requires AllIn(SPECS[spec], sys.worktrees[spec]) && NothingArchived(sys, Owner, spec)
    ensures Labelled(Owner, |SPECS|, attempts)
    ensures Safe(SPECS[spec], sys.worktrees[spec], Mine(Owner, spec), View(History(SPECS, sha, sys, attempts), spec))
  {
    NamedIsLabelled(attempts);
    ShippedChildrenAreDistinct();
    EvidenceIsNeverLost(SPECS, Owner, sha, sys, attempts, spec);
  }
}
