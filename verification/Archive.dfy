/** `_archive_one` step by step: the disk it works on, its steps, and runs cut after any number of them. */
module Archive {

  import opened Basics

  type Name = string
  type Content = string
  type Digest = int

  /** A top-level entry of a `.local` directory; files of a directory are keyed by their relative path. */
  datatype Entry = File(content: Content) | Dir(files: map<string, Content>)

  type Directory = map<Name, Entry>

  /** The path of one file below `.local`. */
  datatype Path = Top(name: Name) | Below(name: Name, rest: string)

  datatype Row = Row(bytes: nat, sha256: Digest)

  type Rows = map<Path, Row>

  function Paths(d: Directory): set<Path> {
    (set n | n in d && d[n].File? :: Top(n)) + (set n, r | n in d && d[n].Dir? && r in d[n].files :: Below(n, r))
  }

  predicate HasFile(d: Directory, p: Path) {
    match p
    case Top(n) => n in d && d[n].File?
    case Below(n, r) => n in d && d[n].Dir? && r in d[n].files
  }

  function ContentAt(d: Directory, p: Path): Content
    requires HasFile(d, p)
  {
    match p
    case Top(n) => d[n].content
    case Below(n, r) => d[n].files[r]
  }

  /** `_inventory`: size and hash of every file. */
  function Inventory(d: Directory, sha: Content -> Digest): (rows: Rows)
    ensures forall p :: p in rows <==> HasFile(d, p)
    ensures forall p :: p in rows ==> rows[p] == Row(|ContentAt(d, p)|, sha(ContentAt(d, p)))
  {
    map p | p in Paths(d) :: Row(|ContentAt(d, p)|, sha(ContentAt(d, p)))
  }

  /** Every path starts with "build/". */
  predicate BuildOnly(rows: Rows) {
    forall p :: p in rows ==> p.Below? && p.name == "build"
  }

  /** Apart from empty directories, only the directory "build" is there. */
  ghost predicate OnlyBuildLeft(d: Directory) {
    forall n :: n in d ==> d[n].Dir? && (n == "build" || d[n].files == map[])
  }

  /** What the verdict on the rest of a worktree asks of its entries. */
  lemma BuildOnlyIff(d: Directory, sha: Content -> Digest)
    ensures BuildOnly(Inventory(d, sha)) <==> OnlyBuildLeft(d)
  {
    var rows := Inventory(d, sha);
    if BuildOnly(rows) {
      forall n | n in d ensures d[n].Dir? && (n == "build" || d[n].files == map[]) {
        assert d[n].File? ==> Top(n) in rows;
        assert forall r :: d[n].Dir? && r in d[n].files ==> Below(n, r) in rows;
      }
    }
  }

  /** A path names a file iff the directory has it there, with that content. */
  lemma FileAt(d: Directory, p: Path, c: Content)
    ensures HasFile(d, p) && ContentAt(d, p) == c <==>
      match p
      case Top(n) => n in d && d[n] == File(c)
      case Below(n, r) => n in d && d[n].Dir? && r in d[n].files && d[n].files[r] == c
  {
  }

  /** all(row sha256 == hash of the file at the row's path); a missing file raises. */
  predicate HashesMatch(rows: Rows, d: Directory, sha: Content -> Digest) {
    forall p :: p in rows ==> HasFile(d, p) && sha(ContentAt(d, p)) == rows[p].sha256
  }

  datatype Manifest = Manifest(files: Rows, hashVerificationPass: bool, regenerableBuildCacheOnly: bool)

  /** An archive destination: its `.local`, and the four metadata files once written. */
  datatype Destination = Destination(
    local: Option<Directory>, manifest: Option<Manifest>, csv: Option<Rows>, hashes: Option<Rows>, readme: bool)

  const EMPTY_DESTINATION := Destination(None, None, None, None, false)

  /** The worktree's `.local` and the archive parent directory. */
  datatype Disk = Disk(evidence: Directory, archives: map<Name, Destination>)

  datatype Error = Incomplete | Ambiguous | SourcesMissing | VerificationFailed

  /** The next step of a run of `_archive_one`. */
  datatype Pc =
    | Check
    | MakeDestination
    | MakeLocal
    | Move(child: nat)
    | TakeInventory
    | WriteManifest(rows: Rows, remaining: Rows)
    | WriteCsv(rows: Rows, pass: bool)
    | WriteHashes(rows: Rows, pass: bool)
    | WriteReadme(pass: bool)
    | Gate(pass: bool)
    | Done
    | Raised(error: Error)

  function Local(d: Destination): Directory {
    if d.local.Some? then d.local.value else map[]
  }

  function SetDestination(disk: Disk, dest: Name, d: Destination): Disk {
    disk.(archives := disk.archives[dest := d])
  }

  predicate Terminal(pc: Pc) {
    pc.Done? || pc.Raised?
  }

  /** From the inventory on, up to the last file. */
  predicate WritesMetadata(pc: Pc) {
    pc.TakeInventory? || pc.WriteManifest? || pc.WriteCsv? || pc.WriteHashes? || pc.WriteReadme?
  }

  /** The decision taken before anything is changed. */
  function Checked(children: seq<Name>, dest: Name, disk: Disk): Pc {
    if dest in disk.archives then
      var local := disk.archives[dest].local;
      if local.None? || exists k :: 0 <= k < |children| && children[k] !in local.value then Raised(Incomplete)
      else if exists k :: 0 <= k < |children| && children[k] in disk.evidence then Raised(Ambiguous)
      else TakeInventory
    else if exists k :: 0 <= k < |children| && children[k] !in disk.evidence then Raised(SourcesMissing)
    else MakeDestination
  }

  /** What has to hold of the disk before a step; it does in every run. */
  predicate CanStep(children: seq<Name>, dest: Name, disk: Disk, pc: Pc) {
    && (pc.Move? ==> pc.child <= |children| && (pc.child < |children| ==> children[pc.child] in disk.evidence))
    && (pc.MakeLocal? || pc.Move? || WritesMetadata(pc) ==> dest in disk.archives)
  }

  /** One step: one directory or file created, one child moved, or one decision. */
  function Step(children: seq<Name>, dest: Name, sha: Content -> Digest, disk: Disk, pc: Pc): (Disk, Pc)
    requires CanStep(children, dest, disk, pc)
  {
    match pc
    case Check => (disk, Checked(children, dest, disk))
    case MakeDestination => (SetDestination(disk, dest, EMPTY_DESTINATION), MakeLocal)
    case MakeLocal => (SetDestination(disk, dest, disk.archives[dest].(local := Some(map[]))), Move(0))
    case Move(i) =>
      if i == |children| then (disk, TakeInventory)
      else
        var d := disk.archives[dest];
        var moved := d.(local := Some(Local(d)[children[i] := disk.evidence[children[i]]]));
        (Disk(disk.evidence - {children[i]}, disk.archives[dest := moved]), Move(i + 1))
    case TakeInventory =>
      (disk, WriteManifest(Inventory(Local(disk.archives[dest]), sha), Inventory(disk.evidence, sha)))
    case WriteManifest(rows, remaining) =>
      var d := disk.archives[dest];
      var verified := HashesMatch(rows, Local(d), sha);
      (SetDestination(disk, dest, d.(manifest := Some(Manifest(rows, verified, BuildOnly(remaining))))),
       WriteCsv(rows, verified && BuildOnly(remaining)))
    case WriteCsv(rows, pass) =>
      (SetDestination(disk, dest, disk.archives[dest].(csv := Some(rows))), WriteHashes(rows, pass))
    case WriteHashes(rows, pass) =>
      (SetDestination(disk, dest, disk.archives[dest].(hashes := Some(rows))), WriteReadme(pass))
    case WriteReadme(pass) => (SetDestination(disk, dest, disk.archives[dest].(readme := true)), Gate(pass))
    case Gate(pass) => (disk, if pass then Done else Raised(VerificationFailed))
    case Done => (disk, pc)
    case Raised(_) => (disk, pc)
  }

  // Runs, each cut after any number of steps.

  /** At most `cut` steps from a step on; a run whose precondition fails would stop, but none does. */
  function Exec(children: seq<Name>, dest: Name, sha: Content -> Digest, disk: Disk, pc: Pc, cut: nat): (Disk, Pc)
    decreases cut
  {
    if cut == 0 || Terminal(pc) || !CanStep(children, dest, disk, pc) then (disk, pc)
    else
      var (disk', pc') := Step(children, dest, sha, disk, pc);
      Exec(children, dest, sha, disk', pc', cut - 1)
  }

  lemma OneStep(children: seq<Name>, dest: Name, sha: Content -> Digest, disk: Disk, pc: Pc, cut: nat,
                disk1: Disk, pc1: Pc)
    requires 1 <= cut && !Terminal(pc) && CanStep(children, dest, disk, pc)
    requires Step(children, dest, sha, disk, pc) == (disk1, pc1)
    ensures Exec(children, dest, sha, disk, pc, cut) == Exec(children, dest, sha, disk1, pc1, cut - 1)
  {
  }

  /** Setting a destination again forgets the first setting. */
  lemma SetTwice(disk: Disk, dest: Name, a: Destination, b: Destination)
    ensures SetDestination(SetDestination(disk, dest, a), dest, b) == SetDestination(disk, dest, b)
  {
    assert disk.archives[dest := a][dest := b] == disk.archives[dest := b];
  }

  /** A run touches no destination but its own. */
  lemma {:induction false} OthersUntouched(children: seq<Name>, dest: Name, sha: Content -> Digest, disk: Disk,
                                           pc: Pc, cut: nat, d: Name)
    requires d != dest
    ensures var archives := Exec(children, dest, sha, disk, pc, cut).0.archives;
      (d in archives <==> d in disk.archives) && (d in archives ==> archives[d] == disk.archives[d])
    decreases cut
  {
    if cut == 0 || Terminal(pc) || !CanStep(children, dest, disk, pc) {
    } else {
      var (disk1, pc1) := Step(children, dest, sha, disk, pc);
      OthersUntouched(children, dest, sha, disk1, pc1, cut - 1, d);
    }
  }

  lemma {:induction false} DestinationsPersist(children: seq<Name>, dest: Name, sha: Content -> Digest, disk: Disk,
                                               pc: Pc, cut: nat, d: Name)
    requires d in disk.archives
    ensures d in Exec(children, dest, sha, disk, pc, cut).0.archives
    decreases cut
  {
    if cut == 0 || Terminal(pc) || !CanStep(children, dest, disk, pc) {
    } else {
      var (disk1, pc1) := Step(children, dest, sha, disk, pc);
      DestinationsPersist(children, dest, sha, disk1, pc1, cut - 1, d);
    }
  }

  // The order of the metadata files.

  /** No metadata file without those written before it. */
  predicate Staged(d: Destination) {
    && (d.readme ==> d.hashes.Some?)
    && (d.hashes.Some? ==> d.csv.Some?)
    && (d.csv.Some? ==> d.manifest.Some?)
  }

  ghost predicate Staging(dest: Name, disk: Disk, pc: Pc) {
    dest in disk.archives ==>
      && Staged(disk.archives[dest])
      && (pc.WriteCsv? ==> disk.archives[dest].manifest.Some?)
      && (pc.WriteHashes? ==> disk.archives[dest].csv.Some?)
      && (pc.WriteReadme? ==> disk.archives[dest].hashes.Some?)
      && (pc.Gate? || pc.Done? || pc == Raised(VerificationFailed) ==> disk.archives[dest].readme)
  }

  lemma {:induction false} ExecKeepsStaging(children: seq<Name>, dest: Name, sha: Content -> Digest, disk: Disk,
                                            pc: Pc, cut: nat)
    requires Staging(dest, disk, pc)
    ensures var (disk', pc') := Exec(children, dest, sha, disk, pc, cut); Staging(dest, disk', pc')
    decreases cut
  {
    if cut == 0 || Terminal(pc) || !CanStep(children, dest, disk, pc) {
    } else {
      var (disk1, pc1) := Step(children, dest, sha, disk, pc);
      ExecKeepsStaging(children, dest, sha, disk1, pc1, cut - 1);
    }
  }

  /** Main fact, order: wherever a run is cut, there is no README without the hashes, no hashes without the CSV and no
      CSV without the manifest; a run that returns has written all four. */
  lemma MetadataInOrder(children: seq<Name>, dest: Name, sha: Content -> Digest, disk: Disk, cut: nat)
    requires dest in disk.archives ==> Staged(disk.archives[dest])
    ensures var (disk', pc') := Exec(children, dest, sha, disk, Check, cut);
      dest in disk'.archives ==>
        var d := disk'.archives[dest];
        && (d.readme ==> d.hashes.Some?) && (d.hashes.Some? ==> d.csv.Some?) && (d.csv.Some? ==> d.manifest.Some?)
        && (pc'.Done? ==> d.readme)
  {
    ExecKeepsStaging(children, dest, sha, disk, Check, cut);
  }

  /** Main fact, refusals: what a run raises before it changes anything, by what it finds. */
  lemma FirstStepDecides(children: seq<Name>, dest: Name, sha: Content -> Digest, disk: Disk)
    ensures var pc := Exec(children, dest, sha, disk, Check, 1).1;
      var there := dest in disk.archives;
      var complete := there && disk.archives[dest].local.Some?
                      && forall c :: c in children ==> c in disk.archives[dest].local.value;
      && Exec(children, dest, sha, disk, Check, 1).0 == disk
      && (pc == Raised(Incomplete) <==> there && !complete)
      && (pc == Raised(Ambiguous) <==> complete && exists c :: c in children && c in disk.evidence)
      && (pc == Raised(SourcesMissing) <==> !there && exists c :: c in children && c !in disk.evidence)
      && (pc == TakeInventory <==> complete && forall c :: c in children ==> c !in disk.evidence)
      && (pc == MakeDestination <==> !there && forall c :: c in children ==> c in disk.evidence)
  {
    var pc := Checked(children, dest, disk);
    OneStep(children, dest, sha, disk, Check, 1, disk, pc);
    assert Exec(children, dest, sha, disk, pc, 0) == (disk, pc);
  }

  // Sets of children.

  function FirstChildren(children: seq<Name>, m: nat): set<Name>
    requires m <= |children|
  {
    set k | 0 <= k < m :: children[k]
  }

  function Without(d: Directory, names: set<Name>): Directory {
    d - names
  }

  function Only(d: Directory, names: set<Name>): Directory {
    map n | n in d && n in names :: d[n]
  }

  predicate AllIn(children: seq<Name>, d: Directory) {
    forall k :: 0 <= k < |children| ==> children[k] in d
  }

  predicate StillThere(children: seq<Name>, i: nat, disk: Disk) {
    forall k :: i <= k < |children| ==> children[k] in disk.evidence
  }

  function MoveChild(disk: Disk, dest: Name, child: Name): Disk
    requires dest in disk.archives && child in disk.evidence
  {
    var d := disk.archives[dest];
    var moved := d.(local := Some(Local(d)[child := disk.evidence[child]]));
    Disk(disk.evidence - {child}, disk.archives[dest := moved])
  }

  lemma MoveIsOneStep(children: seq<Name>, dest: Name, sha: Content -> Digest, disk: Disk, i: nat, fuel: nat)
    requires Distinct(children) && i < |children| && 1 <= fuel
    requires dest in disk.archives && StillThere(children, i, disk)
    ensures StillThere(children, i + 1, MoveChild(disk, dest, children[i]))
    ensures Exec(children, dest, sha, disk, Move(i), fuel)
         == Exec(children, dest, sha, MoveChild(disk, dest, children[i]), Move(i + 1), fuel - 1)
  {
    assert forall k :: i < k < |children| ==> children[k] != children[i];
    OneStep(children, dest, sha, disk, Move(i), fuel, MoveChild(disk, dest, children[i]), Move(i + 1));
  }
}
