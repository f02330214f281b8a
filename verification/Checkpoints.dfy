/** The checkpoint chain: what closeout accepts, what a shadow cut keeps, and where a shadow resumes. */
module Checkpoints {
  import opened Basics

  type Name = string
  type Content = nat

  /** progress.json; a key that is absent is None, and keys no script here touches are in `others`. */
  datatype Progress = Progress(
    accepted: Option<seq<int>>,
    invalid: Option<seq<int>>,
    orphan: Option<seq<int>>,
    lastAccepted: Option<Option<int>>,
    nextFrame: Option<int>,
    status: Option<string>,
    others: map<string, string>)

  /** `progress.get(key, [])`. */
  function Listed(o: Option<seq<int>>): seq<int> {
    if o.Some? then o.value else []
  }

  function Range(n: nat): seq<int> {
    seq(n, i => i)
  }

  function Elements(s: seq<int>): set<int> {
    set i | i in s
  }

  function Clamp(seed: int, n: nat): (m: nat)
    ensures m == 0 || m == seed || m == n
    ensures m <= n && (m <= seed || m == 0)
  {
    if seed <= 0 then 0 else if seed < n then seed else n
  }

  // ----- `_chain` -----

  /** The numbers after the last underscore of the frame file names. */
  function Indices(index: Name -> Option<int>, names: set<Name>): set<int> {
    set name | name in names && index(name).Some? :: index(name).value
  }

  ghost predicate AllNumbered(index: Name -> Option<int>, names: set<Name>) {
    forall name :: name in names ==> index(name).Some?
  }

  datatype Chain =
    | Unreadable
    | Report(accepted: seq<int>, contiguous: bool, missing: set<int>, unexpected: set<int>, valid: bool)

  function ChainOf(index: Name -> Option<int>, progress: Progress, names: set<Name>): Chain {
    if exists name :: name in names && index(name).None? then Unreadable
    else
      var accepted := Listed(progress.accepted);
      var files := Indices(index, names);
      var missing := Elements(accepted) - files;
      var unexpected := files - Elements(accepted);
      Report(accepted, accepted == Range(|accepted|), missing, unexpected,
             accepted == Range(|accepted|) && missing == {} && unexpected == {}
             && Listed(progress.invalid) == [] && Listed(progress.orphan) == [])
  }

  ghost predicate Valid(index: Name -> Option<int>, progress: Progress, names: set<Name>) {
    ChainOf(index, progress, names).Report? && ChainOf(index, progress, names).valid
  }

  /** The files are frames 0 to n - 1 and nothing else, and the progress file says so. */
  ghost predicate HoldsFirst(index: Name -> Option<int>, progress: Progress, names: set<Name>, n: nat) {
    && Listed(progress.accepted) == Range(n)
    && AllNumbered(index, names)
    && (forall i :: i in Indices(index, names) <==> 0 <= i < n)
    && Listed(progress.invalid) == []
    && Listed(progress.orphan) == []
  }

  lemma ValidMeansFirstFrames(index: Name -> Option<int>, progress: Progress, names: set<Name>)
    ensures Valid(index, progress, names) <==> HoldsFirst(index, progress, names, |Listed(progress.accepted)|)
  {
    var accepted := Listed(progress.accepted);
    var files := Indices(index, names);
    if accepted == Range(|accepted|) {
      forall i ensures i in Elements(accepted) <==> 0 <= i < |accepted| {
        if 0 <= i < |accepted| {
          assert accepted[i] == i;
        }
      }
      SameIffNoDifference(Elements(accepted), files);
    }
  }

  lemma SameIffNoDifference(a: set<int>, b: set<int>)
    ensures a - b == {} && b - a == {} <==> a == b
    ensures a == b <==> forall i :: i in b <==> i in a
  {
    if forall i :: i in b <==> i in a {
      assert a == b;
    }
    if a - b == {} && b - a == {} {
      forall i ensures i in a <==> i in b {
        assert i in a && i !in b ==> i in a - b;
        assert i in b && i !in a ==> i in b - a;
      }
    }
  }

  /** The report of a chain: unreadable iff some file has no number, else what is accepted without a file, what is a
      file without being accepted, and whether the accepted frames count up from zero. */
  lemma ChainReport(index: Name -> Option<int>, progress: Progress, names: set<Name>, i: int)
    ensures var chain, accepted := ChainOf(index, progress, names), Listed(progress.accepted);
      && (chain.Unreadable? <==> exists name :: name in names && index(name) == None)
      && (chain.Report? ==>
            && chain.accepted == accepted
            && (chain.contiguous <==> forall k :: 0 <= k < |accepted| ==> accepted[k] == k)
            && (i in chain.missing <==> i in accepted && forall name :: name in names ==> index(name) != Some(i))
            && (i in chain.unexpected <==> i !in accepted && exists name :: name in names && index(name) == Some(i)))
  {
    var accepted := Listed(progress.accepted);
    if forall k :: 0 <= k < |accepted| ==> accepted[k] == k {
      assert accepted == Range(|accepted|);
    }
  }

  // ----- `_shadow_checkpoint` -----

  function Below(s: seq<int>, seed: int): (r: seq<int>)
    ensures forall i :: i in r <==> i in s && i < seed
  {
    if s == [] then []
    else
      var front := Below(s[..|s| - 1], seed);
      if s[|s| - 1] < seed then front + [s[|s| - 1]] else front
  }

  function Cut(p: Progress, seed: int): Progress {
    var accepted := Below(Listed(p.accepted), seed);
    p.(accepted := Some(accepted),
       invalid := Some(Below(Listed(p.invalid), seed)),
       orphan := Some(Below(Listed(p.orphan), seed)),
       lastAccepted := Some(if accepted == [] then None else Some(accepted[|accepted| - 1])),
       nextFrame := Some(seed),
       status := Some("paused"))
  }

  /** Cutting a list keeps the order: it is cut part by part, and element by element. */
  lemma {:induction false} BelowIsFilter(a: seq<int>, b: seq<int>, x: int, seed: int)
    ensures Below(a + b, seed) == Below(a, seed) + Below(b, seed)
    ensures Below([x], seed) == if x < seed then [x] else []
  {
    assert [x][..0] == [] && Below([], seed) == [];
    if b == [] {
      assert a + b == a;
    } else {
      var front, last := b[..|b| - 1], b[|b| - 1];
      assert (a + b)[..|a + b| - 1] == a + front && (a + b)[|a + b| - 1] == last;
      BelowIsFilter(a, front, x, seed);
      if last < seed {
        assert Below(a, seed) + (Below(front, seed) + [last]) == (Below(a, seed) + Below(front, seed)) + [last];
      }
    }
  }

  /** Main fact, the cut: each of the three lists keeps just its own frames below the cut, the last accepted frame is
      the last one kept, the counter is the cut, the status is "paused" and nothing else changes. */
  lemma CutFields(p: Progress, seed: int, i: int)
    ensures var q := Cut(p, seed);
      && q.accepted.Some? && q.invalid.Some? && q.orphan.Some?
      && (i in q.accepted.value <==> i in Listed(p.accepted) && i < seed)
      && (i in q.invalid.value <==> i in Listed(p.invalid) && i < seed)
      && (i in q.orphan.value <==> i in Listed(p.orphan) && i < seed)
      && (q.lastAccepted == Some(None) <==> forall j :: j in Listed(p.accepted) ==> seed <= j)
      && (q.accepted.value != [] ==> q.lastAccepted == Some(Some(q.accepted.value[|q.accepted.value| - 1])))
      && q.nextFrame == Some(seed) && q.status == Some("paused") && q.others == p.others
  {
    var kept := Below(Listed(p.accepted), seed);
    if kept != [] {
      assert kept[0] in kept;
    }
    if forall j :: j in Listed(p.accepted) ==> seed <= j {
      assert kept == [];
    }
  }

  predicate Kept(index: Name -> Option<int>, name: Name, seed: int) {
    index(name).Some? && index(name).value < seed
  }

  /** A link is made for every kept frame whose name is not taken already. */
  function Linked(index: Name -> Option<int>, there: map<Name, Content>, source: map<Name, Content>, seed: int)
    : map<Name, Content>
  {
    map name | name in there.Keys + source.Keys && (name in there || Kept(index, name, seed)) ::
      if name in there then there[name] else source[name]
  }

  ghost predicate Within(a: map<Name, Content>, b: map<Name, Content>) {
    forall name :: name in a ==> name in b && b[name] == a[name]
  }

  /** Linking after it went through the names in `done`. */
  ghost predicate LinkedSoFar(index: Name -> Option<int>, there: map<Name, Content>, source: map<Name, Content>,
                              seed: int, done: set<Name>, frames: map<Name, Content>)
  {
    && Within(there, frames)
    && (forall name :: name in frames && name !in there ==> name in source && frames[name] == source[name])
    && (forall name :: name in frames <==> name in there || (name in source && name in done && Kept(index, name, seed)))
  }

  lemma LinkedSoFarIsWithin(index: Name -> Option<int>, there: map<Name, Content>, source: map<Name, Content>,
                            seed: int, done: set<Name>, frames: map<Name, Content>)
    requires LinkedSoFar(index, there, source, seed, done, frames)
    ensures Within(frames, Linked(index, there, source, seed))
    ensures source.Keys <= done ==> frames == Linked(index, there, source, seed)
  {
  }

  class Checkpoint {
    var manifest: Option<Content>
    var progress: Option<Progress>
    var frames: map<Name, Content>

    constructor ()
      ensures manifest == None && progress == None && frames == map[]
    {
      manifest, progress, frames := None, None, map[];
    }

    /**
     * Turns this directory, which may exist already, into a shadow of `original`. A frame file
     * without a number stops the linking wherever it stands in the listing.
     */
    method Shadow(original: Checkpoint, seedBefore: int, index: Name -> Option<int>) returns (ok: bool)
      modifies this
      ensures ok <==> this != original && original.manifest.Some? && AllNumbered(index, original.frames.Keys)
      ensures this == original || original.manifest.None?
              ==> manifest == old(manifest) && progress == old(progress) && frames == old(frames)
      ensures this != original && original.manifest.Some? ==>
                && manifest == original.manifest
                && progress == (if original.progress.Some? then Some(Cut(original.progress.value, seedBefore))
                                else old(progress))
                && Within(old(frames), frames)
                && Within(frames, Linked(index, old(frames), original.frames, seedBefore))
      ensures ok ==> frames == Linked(index, old(frames), original.frames, seedBefore)
    {
      if this == original || original.manifest.None? {
        return false;
      }
      manifest := original.manifest;
      if original.progress.Some? {
        progress := Some(Cut(original.progress.value, seedBefore));
      }
      ok := LinkFrames(original.frames, seedBefore, index);
    }

    method LinkFrames(source: map<Name, Content>, seedBefore: int, index: Name -> Option<int>) returns (ok: bool)
      modifies this`frames
      ensures ok <==> AllNumbered(index, source.Keys)
      ensures Within(old(frames), frames) && Within(frames, Linked(index, old(frames), source, seedBefore))
      ensures ok ==> frames == Linked(index, old(frames), source, seedBefore)
    {
      ghost var there := frames;
      var rest := source.Keys;
      while rest != {}
        invariant rest <= source.Keys
        invariant LinkedSoFar(index, there, source, seedBefore, source.Keys - rest, frames)
        invariant AllNumbered(index, source.Keys - rest)
        decreases |rest|
      {
        LinkedSoFarIsWithin(index, there, source, seedBefore, source.Keys - rest, frames);
        var name :| name in rest;
        if index(name).None? {
          return false;
        }
        rest := rest - {name};
        if index(name).value < seedBefore && name !in frames {
          frames := frames[name := source[name]];
        }
      }
      LinkedSoFarIsWithin(index, there, source, seedBefore, source.Keys, frames);
      return true;
    }
  }

  lemma {:induction false} BelowOfRange(n: nat, seed: int)
    ensures Below(Range(n), seed) == Range(Clamp(seed, n))
  {
    if n == 0 {
    } else {
      var s := Range(n);
      assert s[..n - 1] == Range(n - 1);
      BelowOfRange(n - 1, seed);
      if n - 1 < seed {
        assert Range(n - 1) + [n - 1] == Range(n);
      }
    }
  }

  lemma LinkedIndices(index: Name -> Option<int>, there: map<Name, Content>, source: map<Name, Content>, seed: int)
    ensures forall i :: (i in Indices(index, Linked(index, there, source, seed).Keys)
                         <==> i in Indices(index, there.Keys) || (i in Indices(index, source.Keys) && i < seed))
  {
    var linked := Linked(index, there, source, seed);
    forall i ensures i in Indices(index, linked.Keys)
                     <==> i in Indices(index, there.Keys) || (i in Indices(index, source.Keys) && i < seed)
    {
      if i in Indices(index, there.Keys) {
        var name :| name in there && index(name) == Some(i);
        assert name in linked.Keys;
      }
      if i in Indices(index, source.Keys) && i < seed {
        var name :| name in source && index(name) == Some(i);
        assert name in linked.Keys;
      }
    }
  }

  /**
   * A shadow of an accepted chain, made over whatever frame files are there already, is accepted
   * exactly when those files are all frames the cut keeps.
   */
  lemma ShadowValidIff(index: Name -> Option<int>, p: Progress, source: map<Name, Content>,
                       there: map<Name, Content>, seed: int)
    requires Valid(index, p, source.Keys)
    ensures
      Valid(index, Cut(p, seed), Linked(index, there, source, seed).Keys)
      <==> && AllNumbered(index, there.Keys)
           && forall i :: i in Indices(index, there.Keys) ==> 0 <= i < Clamp(seed, |Listed(p.accepted)|)
  {
    var n := |Listed(p.accepted)|;
    var m := Clamp(seed, n);
    var linked := Linked(index, there, source, seed);
    ValidMeansFirstFrames(index, p, source.Keys);
    BelowOfRange(n, seed);
    LinkedIndices(index, there, source, seed);
    ValidMeansFirstFrames(index, Cut(p, seed), linked.Keys);
    assert AllNumbered(index, linked.Keys) <==> AllNumbered(index, there.Keys) by {
      assert there.Keys <= linked.Keys;
    }
  }

  /**
   * A fresh shadow of an accepted chain is accepted, holds exactly the frames below the cut with
   * their contents, and counts them right exactly when the cut is within the original.
   */
  lemma FreshShadowIsValid(index: Name -> Option<int>, p: Progress, source: map<Name, Content>, seed: int)
    requires Valid(index, p, source.Keys)
    ensures
      var n := |Listed(p.accepted)|;
      var shadow := Linked(index, map[], source, seed);
      && Valid(index, Cut(p, seed), shadow.Keys)
      && Listed(Cut(p, seed).accepted) == Range(Clamp(seed, n))
      && Cut(p, seed).lastAccepted == Some(if Clamp(seed, n) == 0 then None else Some(Clamp(seed, n) - 1))
      && (forall name :: name in shadow <==> name in source && 0 <= index(name).value < Clamp(seed, n))
      && (forall name :: name in shadow ==> shadow[name] == source[name])
      && (Cut(p, seed).nextFrame == Some(|Listed(Cut(p, seed).accepted)|) <==> 0 <= seed <= n)
  {
    var n := |Listed(p.accepted)|;
    ValidMeansFirstFrames(index, p, source.Keys);
    ShadowValidIff(index, p, source, map[], seed);
    BelowOfRange(n, seed);
    forall name | name in source ensures 0 <= index(name).value < n {
      assert index(name).value in Indices(index, source.Keys);
    }
  }

  /** One accepted frame cut at 2: the shadow holds one frame and calls the third the next. */
  lemma ShadowPastTheEnd()
    ensures
      var p := Progress(Some([0]), Some([]), Some([]), Some(Some(0)), Some(1), Some("paused"), map[]);
      var source: map<Name, Content> := map["frame_000000.npz" := 7];
      var index := (name: Name) => Some(0);
      && Valid(index, p, source.Keys)
      && Linked(index, map[], source, 2) == source
      && Cut(p, 2).nextFrame == Some(2) && Listed(Cut(p, 2).accepted) == [0]
  {
    var p := Progress(Some([0]), Some([]), Some([]), Some(Some(0)), Some(1), Some("paused"), map[]);
    OneFrameIsValid((name: Name) => Some(0), p, map["frame_000000.npz" := 7]);
  }

  lemma OneFrameIsValid(index: Name -> Option<int>, p: Progress, source: map<Name, Content>)
    requires source.Keys == {"frame_000000.npz"} && index("frame_000000.npz") == Some(0)
    requires p.accepted == Some([0]) && Listed(p.invalid) == [] && Listed(p.orphan) == []
    ensures Valid(index, p, source.Keys)
    ensures Linked(index, map[], source, 2) == source && Listed(Cut(p, 2).accepted) == [0]
  {
    assert Range(1) == [0];
    assert Indices(index, source.Keys) == {0} by {
      assert "frame_000000.npz" in source.Keys;
    }
    ValidMeansFirstFrames(index, p, source.Keys);
    BelowOfRange(1, 2);
  }

  /** Cutting twice is cutting once, at the lower of the two marks, up to the counter. */
  lemma ShadowOfShadow(index: Name -> Option<int>, p: Progress, source: map<Name, Content>, first: int, second: int)
    ensures
      var lower := if first < second then first else second;
      && Linked(index, map[], Linked(index, map[], source, first), second) == Linked(index, map[], source, lower)
      && Cut(Cut(p, first), second) == Cut(p, lower).(nextFrame := Some(second))
  {
    LinkedTwice(index, source, first, second);
    BelowTwice(Listed(p.accepted), first, second);
    BelowTwice(Listed(p.invalid), first, second);
    BelowTwice(Listed(p.orphan), first, second);
  }

  lemma LinkedTwice(index: Name -> Option<int>, source: map<Name, Content>, first: int, second: int)
    ensures Linked(index, map[], Linked(index, map[], source, first), second)
         == Linked(index, map[], source, if first < second then first else second)
  {
  }

  lemma {:induction false} BelowTwice(s: seq<int>, first: int, second: int)
    ensures Below(Below(s, first), second) == Below(s, if first < second then first else second)
  {
    if s == [] {
    } else {
      var front := Below(s[..|s| - 1], first);
      BelowTwice(s[..|s| - 1], first, second);
      if s[|s| - 1] < first {
        assert (front + [s[|s| - 1]])[..|front|] == front;
      }
    }
  }

  // ----- The scan with which a run resumes its checkpoint -----

  /** The frames whose file, under its canonical name, loads. */
  function Found(index: Name -> Option<int>, canonical: int -> Name, loads: Content -> bool,
                 frames: map<Name, Content>): set<int>
  {
    set i | i in Indices(index, frames.Keys) && canonical(i) in frames && loads(frames[canonical(i)])
  }

  lemma FoundIff(index: Name -> Option<int>, canonical: int -> Name, loads: Content -> bool,
                 frames: map<Name, Content>, i: int)
    ensures i in Found(index, canonical, loads, frames) <==>
      && (exists name :: name in frames && index(name) == Some(i))
      && canonical(i) in frames && loads(frames[canonical(i)])
  {
    if name :| name in frames && index(name) == Some(i) {
      assert i in Indices(index, frames.Keys);
    }
  }

  function Gap(found: set<int>, start: int, end: int): int
    decreases end - start
  {
    if start < end && start in found then Gap(found, start + 1, end) else start
  }

  method Contiguous(found: set<int>, start: int, end: int) returns (contiguous: seq<int>, next: int)
    ensures next == Gap(found, start, end) == start + |contiguous|
    ensures forall k :: 0 <= k < |contiguous| ==> contiguous[k] == start + k
    ensures forall i :: start <= i < next ==> i in found
    ensures next < end ==> next !in found
    ensures start <= end ==> next <= end
  {
    contiguous := [];
    var local := start;
    while local < end
      invariant local == start + |contiguous|
      invariant start <= end ==> local <= end
      invariant Gap(found, local, end) == Gap(found, start, end)
      invariant forall k :: 0 <= k < |contiguous| ==> contiguous[k] == start + k
      invariant forall i :: start <= i < local ==> i in found
    {
      if local !in found {
        break;
      }
      contiguous := contiguous + [local];
      local := local + 1;
    }
    next := if contiguous == [] then start else contiguous[|contiguous| - 1] + 1;
  }

  lemma {:induction false} GapIsFirstMissing(found: set<int>, start: int, end: int)
    ensures var gap := Gap(found, start, end);
            && start <= gap
            && (start <= end ==> gap <= end)
            && (forall i :: start <= i < gap ==> i in found)
            && (gap < end ==> gap !in found)
    decreases end - start
  {
    if end <= start || start !in found {
    } else {
      GapIsFirstMissing(found, start + 1, end);
    }
  }

  /** The progress the store writes after a scan over the frame range [start, end). */
  ghost predicate Records(p: Progress, found: set<int>, invalid: set<int>, start: int, end: int) {
    var gap := Gap(found, start, end);
    && gap >= start
    && p.accepted == Some(seq(gap - start, k => start + k))
    && p.orphan.Some? && Elements(p.orphan.value) == (set i | i in found && !(start <= i < gap))
    && p.invalid.Some? && Elements(p.invalid.value) == invalid
    && p.nextFrame == Some(gap)
  }

  /**
   * Closeout accepts what the store wrote exactly when every file is a numbered frame that loads,
   * and together they are the first frames of a range that starts at zero (or there are none).
   */
  lemma ScanIsAcceptedIff(index: Name -> Option<int>, canonical: int -> Name, loads: Content -> bool,
                          frames: map<Name, Content>, p: Progress, start: int, end: int)
    requires var found := Found(index, canonical, loads, frames);
             Records(p, found, Indices(index, frames.Keys) - found, start, end)
    ensures
      var found := Found(index, canonical, loads, frames);
      Valid(index, p, frames.Keys)
      <==> && AllNumbered(index, frames.Keys)
           && found == Indices(index, frames.Keys)
           && (found != {} ==> start == 0)
           && forall i :: i in found ==> start <= i < Gap(found, start, end)
  {
    var found := Found(index, canonical, loads, frames);
    var files := Indices(index, frames.Keys);
    var gap := Gap(found, start, end);
    GapIsFirstMissing(found, start, end);
    ValidMeansFirstFrames(index, p, frames.Keys);
    EmptyIffNoElements(p.orphan.value);
    EmptyIffNoElements(p.invalid.value);
    if found != {} && Listed(p.accepted) == Range(|Listed(p.accepted)|) && gap > start {
      assert Range(gap - start)[0] == 0;
    }
    if found == files && (found != {} ==> start == 0) && forall i :: i in found ==> start <= i < gap {
      assert gap > start ==> start in found;
      assert Listed(p.accepted) == Range(gap - start);
    }
  }

  /** Frame i has a file, which under its canonical name loads. */
  ghost predicate Loads(index: Name -> Option<int>, canonical: int -> Name, loads: Content -> bool,
                        frames: map<Name, Content>, i: int)
  {
    (exists name :: name in frames && index(name) == Some(i)) && canonical(i) in frames && loads(frames[canonical(i)])
  }

  /** The same on the files alone: every file is numbered, lies in a range from zero, loads under its canonical name,
      and so does every frame before it. */
  lemma ScanIsAcceptedOnFiles(index: Name -> Option<int>, canonical: int -> Name, loads: Content -> bool,
                              frames: map<Name, Content>, p: Progress, start: int, end: int)
    requires var found := Found(index, canonical, loads, frames);
             Records(p, found, Indices(index, frames.Keys) - found, start, end)
    ensures Valid(index, p, frames.Keys) <==>
      forall name :: name in frames ==>
        && index(name).Some? && start == 0 <= index(name).value < end
        && forall j :: 0 <= j <= index(name).value ==> Loads(index, canonical, loads, frames, j)
  {
    var found, files := Found(index, canonical, loads, frames), Indices(index, frames.Keys);
    var gap := Gap(found, start, end);
    ScanIsAcceptedIff(index, canonical, loads, frames, p, start, end);
    GapIsFirstMissing(found, start, end);
    forall i ensures i in found <==> Loads(index, canonical, loads, frames, i) {
      FoundIff(index, canonical, loads, frames, i);
    }
    if Valid(index, p, frames.Keys) {
      forall name | name in frames
        ensures index(name).Some? && start == 0 <= index(name).value < end
        ensures forall j :: 0 <= j <= index(name).value ==> Loads(index, canonical, loads, frames, j)
      {
        assert index(name).value in files;
      }
    }
    if forall name :: name in frames ==>
         && index(name).Some? && start == 0 <= index(name).value < end
         && forall j :: 0 <= j <= index(name).value ==> Loads(index, canonical, loads, frames, j) {
      forall i | i in files ensures i in found && start == 0 <= i < gap {
        var name :| name in frames && index(name) == Some(i);
        assert Loads(index, canonical, loads, frames, i);
        assert gap <= i ==> Loads(index, canonical, loads, frames, gap);
      }
      assert found == files;
    }
  }

  lemma EmptyIffNoElements(s: seq<int>)
    ensures s == [] <==> Elements(s) == {}
  {
    if s != [] {
      assert s[0] in Elements(s);
    }
  }

  /**
   * The worker's scan of a fresh shadow finds exactly the accepted frames, so it resumes at the
   * cut exactly when the cut is within the original; past the end it resumes at the end.
   */
  lemma ShadowResumesAtCutIff(index: Name -> Option<int>, canonical: int -> Name, loads: Content -> bool,
                              p: Progress, source: map<Name, Content>, seed: int, end: int)
    requires Valid(index, p, source.Keys) && |Listed(p.accepted)| <= end
    requires forall i: int :: i >= 0 ==> index(canonical(i)) == Some(i)
    requires Found(index, canonical, loads, source) == Indices(index, source.Keys)
    ensures
      var n := |Listed(p.accepted)|;
      var shadow := Linked(index, map[], source, seed);
      var gap := Gap(Found(index, canonical, loads, shadow), 0, end);
      && gap == Clamp(seed, n)
      && Found(index, canonical, loads, shadow) == Indices(index, shadow.Keys)
      && (gap == seed <==> 0 <= seed <= n)
  {
    var n := |Listed(p.accepted)|;
    var shadow := Linked(index, map[], source, seed);
    var found := Found(index, canonical, loads, shadow);
    ValidMeansFirstFrames(index, p, source.Keys);
    LinkedIndices(index, map[], source, seed);
    assert forall i :: i in Indices(index, shadow.Keys) <==> 0 <= i < Clamp(seed, n);
    forall i | i in Indices(index, shadow.Keys) ensures i in found {
      assert i in Found(index, canonical, loads, source);
      assert canonical(i) in source && Kept(index, canonical(i), seed);
    }
    GapIsFirstMissing(found, 0, end);
    var gap, m := Gap(found, 0, end), Clamp(seed, n);
    assert gap < m ==> gap in Indices(index, shadow.Keys);
    assert m < gap ==> m in found;
  }
}
