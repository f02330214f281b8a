/** The V4 strict audit's grouping of hand bodies and its classification of required samples. */
module HandGroups {
  import opened Basics
  import opened Masks
  import opened RunEncoders

  datatype Result<T> = Ok(value: T) | Error(message: string)

  const FINGER_COUNT: nat := 5
  const BODY_COUNT: nat := 21

  function Prefix(f: nat): string
    requires f < FINGER_COUNT
  {
    if f == 0 then "r_thumb_"
    else if f == 1 then "r_index_finger_"
    else if f == 2 then "r_middle_finger_"
    else if f == 3 then "r_ring_finger_"
    else "r_pinky_"
  }

  function TipName(f: nat): string
    requires f < FINGER_COUNT
  {
    Prefix(f) + "distal"
  }

  function TipIndex(f: nat): (b: nat)
    requires f < FINGER_COUNT
    ensures b < BODY_COUNT
  {
    if f == 0 then 20 else if f == 1 then 4 else if f == 2 then 8 else if f == 3 then 16 else 12
  }

  /** The bodies whose name starts with finger f's prefix. */
  function PrefixMask(names: seq<string>, f: nat): (m: Mask)
    requires f < FINGER_COUNT
    ensures |m| == |names| && forall i :: 0 <= i < |m| ==> m[i] == StartsWith(names[i], Prefix(f))
  {
    seq(|names|, i requires 0 <= i < |names| => StartsWith(names[i], Prefix(f)))
  }

  function GroupOf(names: seq<string>, f: nat): seq<nat>
    requires f < FINGER_COUNT
  {
    FlatNonzero(PrefixMask(names, f), |names|)
  }

  function IndexOf(names: seq<string>, name: string): (i: nat)
    requires name in names
    ensures i < |names| && names[i] == name
    ensures forall j :: 0 <= j < i ==> names[j] != name
  {
    if names[0] == name then 0 else 1 + IndexOf(names[1..], name)
  }

  /** The finger groups, indexed as FINGERS, and the wrist body. */
  datatype Groups = Groups(fingers: seq<seq<nat>>, wrist: nat)

  predicate InGroup(g: Groups, f: nat, b: nat) {
    f < |g.fingers| && b in g.fingers[f]
  }

  predicate InSomeGroup(g: Groups, b: nat) {
    exists f: nat :: f < |g.fingers| && InGroup(g, f, b)
  }

  /** `_group_indices`, with its checks in order. */
  function GroupIndices(names: seq<string>): Result<Groups> {
    if exists f: nat :: f < FINGER_COUNT && |GroupOf(names, f)| != 4 then
      Error("STRICT_V4_AUDIT_FINGER_GROUP_INVALID")
    else if |names| != BODY_COUNT || !Distinct(names) || "r_wrist" !in names then
      Error("STRICT_V4_AUDIT_HAND_BODY_MAPPING_INVALID")
    else if exists f: nat :: f < FINGER_COUNT && names[TipIndex(f)] != TipName(f) then
      Error("STRICT_V4_AUDIT_TIP_SENSOR_MAPPING_DRIFT")
    else
      Ok(Groups(seq(FINGER_COUNT, f requires 0 <= f < FINGER_COUNT => GroupOf(names, f)), IndexOf(names, "r_wrist")))
  }

  /** No name belongs to two fingers, and the wrist to none: the third letter already decides. */
  lemma PrefixesDisjoint(name: string, f: nat, g: nat)
    requires f < FINGER_COUNT && g < FINGER_COUNT && StartsWith(name, Prefix(f))
    ensures StartsWith(name, Prefix(g)) ==> f == g
    ensures name != "r_wrist"
    ensures 2 < |name|
  {
    assert name[2] == Prefix(f)[2];
    if StartsWith(name, Prefix(g)) {
      assert name[2] == Prefix(g)[2];
    }
  }

  /** Bodies of the first n fingers. */
  function UnionMask(names: seq<string>, n: nat): (m: Mask)
    requires n <= FINGER_COUNT
    ensures |m| == |names|
    ensures forall i :: 0 <= i < |m| ==> (m[i] <==> exists f: nat :: f < n && StartsWith(names[i], Prefix(f)))
  {
    seq(|names|, i requires 0 <= i < |names| => exists f: nat :: f < n && StartsWith(names[i], Prefix(f)))
  }

  lemma UnionStep(names: seq<string>, n: nat)
    requires 1 <= n <= FINGER_COUNT
    ensures Count(UnionMask(names, n)) == Count(UnionMask(names, n - 1)) + Count(PrefixMask(names, n - 1))
  {
    var last, before := PrefixMask(names, n - 1), UnionMask(names, n - 1);
    forall i | 0 <= i < |names| && last[i] ensures !before[i] {
      forall f: nat | f < n - 1 ensures !StartsWith(names[i], Prefix(f)) {
        PrefixesDisjoint(names[i], n - 1, f);
      }
    }
    CountPartition(UnionMask(names, n), before, last, 0, |names|);
  }

  lemma {:induction false} GroupSizesAddUp(names: seq<string>, n: nat)
    requires n <= FINGER_COUNT
    requires forall f: nat :: f < FINGER_COUNT ==> |GroupOf(names, f)| == 4
    ensures Count(UnionMask(names, n)) == 4 * n
  {
    if n == 0 {
      CountUniform(UnionMask(names, 0), 0, |names|);
    } else {
      GroupSizesAddUp(names, n - 1);
      UnionStep(names, n);
      FlatNonzeroIndices(PrefixMask(names, n - 1), |names|);
      assert |GroupOf(names, n - 1)| == 4;
    }
  }

  lemma {:induction false} CountFull(m: Mask, n: nat)
    requires n <= |m|
    ensures CountIn(m, 0, n) <= n
    ensures CountIn(m, 0, n) == n ==> AllTrue(m, 0, n)
  {
    if n == 0 {
    } else {
      CountFull(m, n - 1);
    }
  }

  lemma CountAtLeastOne(m: Mask, i: nat)
    requires i < |m| && m[i]
    ensures 1 <= Count(m)
  {
    CountSplit(m, 0, i, |m|);
    CountSplit(m, i, i + 1, |m|);
  }

  /** The finger groups and the wrist partition the bodies; every tip is in its own finger's group. */
  ghost predicate Partition(g: Groups) {
    && |g.fingers| == FINGER_COUNT && g.wrist < BODY_COUNT
    && (forall f: nat, b: nat :: InGroup(g, f, b) ==> b < BODY_COUNT)
    && (forall b: nat {:trigger InSomeGroup(g, b)} :: b < BODY_COUNT ==> (b == g.wrist <==> !InSomeGroup(g, b)))
    && (forall b: nat, e: nat, f: nat :: InGroup(g, e, b) && InGroup(g, f, b) ==> e == f)
    && (forall f: nat :: f < FINGER_COUNT ==> |g.fingers[f]| == 4)
    && (forall f: nat :: f < FINGER_COUNT ==> InGroup(g, f, TipIndex(f)))
  }

  /** Main fact: names that pass the checks are partitioned. */
  lemma GroupsPartitionBodies(names: seq<string>)
    requires GroupIndices(names).Ok?
    ensures |names| == BODY_COUNT && Partition(GroupIndices(names).value)
  {
    var g := GroupIndices(names).value;
    forall f: nat, b: nat
      ensures InGroup(g, f, b) <==> f < FINGER_COUNT && b < BODY_COUNT && StartsWith(names[b], Prefix(f))
    {
      if f < FINGER_COUNT {
        MemberOfGroup(names, f, b);
      }
    }
    forall b: nat, e: nat, f: nat | InGroup(g, e, b) && InGroup(g, f, b) ensures e == f {
      PrefixesDisjoint(names[b], e, f);
    }
    forall f: nat | f < FINGER_COUNT ensures InGroup(g, f, TipIndex(f)) {
      assert names[TipIndex(f)] == TipName(f);
    }
    WristIsTheRest(names);
    forall b: nat {:trigger InSomeGroup(g, b)} | b < BODY_COUNT ensures b == g.wrist <==> !InSomeGroup(g, b) {
      var grouped := UnionMask(names, FINGER_COUNT)[b];
      if grouped {
        var f: nat :| f < FINGER_COUNT && StartsWith(names[b], Prefix(f));
        assert InGroup(g, f, b);
      }
    }
  }

  lemma MemberOfGroup(names: seq<string>, f: nat, b: nat)
    requires f < FINGER_COUNT
    ensures b in GroupOf(names, f) <==> b < |names| && StartsWith(names[b], Prefix(f))
  {
    FlatNonzeroIndices(PrefixMask(names, f), |names|);
  }

  /** Twenty grouped bodies and one wrist exhaust the twenty-one names. */
  lemma WristIsTheRest(names: seq<string>)
    requires GroupIndices(names).Ok?
    ensures var wrist := GroupIndices(names).value.wrist;
      forall b: nat :: b < |names| ==> (UnionMask(names, FINGER_COUNT)[b] <==> b != wrist)
  {
    var wrist := GroupIndices(names).value.wrist;
    GroupSizesAddUp(names, FINGER_COUNT);
    if UnionMask(names, FINGER_COUNT)[wrist] {
      var f: nat :| f < FINGER_COUNT && StartsWith(names[wrist], Prefix(f));
      PrefixesDisjoint(names[wrist], f, f);
    }
    AllButOne(UnionMask(names, FINGER_COUNT), wrist);
  }

  /** A mask one short of full misses only the frame it is known to miss. */
  lemma AllButOne(m: Mask, k: nat)
    requires k < |m| && !m[k] && Count(m) + 1 == |m|
    ensures forall i :: 0 <= i < |m| ==> (m[i] <==> i != k)
  {
    var only: Mask := seq(|m|, i => i == k);
    var either: Mask := seq(|m|, i requires 0 <= i < |m| => m[i] || only[i]);
    CountAtLeastOne(only, k);
    CountPartition(either, m, only, 0, |m|);
    CountFull(either, |m|);
    assert forall i :: 0 <= i < |m| ==> either[i];
  }

  // Which names are accepted.

  /** The checks, in order, on the names alone: four names for every prefix, twenty-one distinct names with the wrist
      among them, every tip in its place. */
  lemma AcceptedIff(names: seq<string>)
    ensures var four := forall f: nat :: f < FINGER_COUNT ==>
        |set b: nat | b < |names| && StartsWith(names[b], Prefix(f))| == 4;
      var mapped := |names| == 21 && Distinct(names) && "r_wrist" in names;
      var tips := |names| == 21 && forall f: nat :: f < FINGER_COUNT ==> names[TipIndex(f)] == Prefix(f) + "distal";
      && (GroupIndices(names).Ok? <==> four && mapped && tips)
      && (GroupIndices(names) == Error("STRICT_V4_AUDIT_FINGER_GROUP_INVALID") <==> !four)
      && (GroupIndices(names) == Error("STRICT_V4_AUDIT_HAND_BODY_MAPPING_INVALID") <==> four && !mapped)
      && (GroupIndices(names) == Error("STRICT_V4_AUDIT_TIP_SENSOR_MAPPING_DRIFT") <==> four && mapped && !tips)
  {
    forall f: nat | f < FINGER_COUNT
      ensures |GroupOf(names, f)| == |set b: nat | b < |names| && StartsWith(names[b], Prefix(f))|
    {
      GroupSize(names, f);
    }
    MessagesDiffer();
  }

  lemma MessagesDiffer()
    ensures "STRICT_V4_AUDIT_FINGER_GROUP_INVALID" != "STRICT_V4_AUDIT_HAND_BODY_MAPPING_INVALID"
    ensures "STRICT_V4_AUDIT_FINGER_GROUP_INVALID" != "STRICT_V4_AUDIT_TIP_SENSOR_MAPPING_DRIFT"
    ensures "STRICT_V4_AUDIT_HAND_BODY_MAPPING_INVALID" != "STRICT_V4_AUDIT_TIP_SENSOR_MAPPING_DRIFT"
  {
    var i := 16;
    assert "STRICT_V4_AUDIT_FINGER_GROUP_INVALID"[i] == 'F' && "STRICT_V4_AUDIT_HAND_BODY_MAPPING_INVALID"[i] == 'H'
        && "STRICT_V4_AUDIT_TIP_SENSOR_MAPPING_DRIFT"[i] == 'T';
  }

  lemma GroupSize(names: seq<string>, f: nat)
    requires f < FINGER_COUNT
    ensures |GroupOf(names, f)| == |set b: nat | b < |names| && StartsWith(names[b], Prefix(f))|
  {
    var m := PrefixMask(names, f);
    FlatNonzeroIndices(m, |names|);
    CountIsCardinality(m, 0, |names|);
    assert (set b: nat | 0 <= b < |names| && m[b]) == (set b: nat | b < |names| && StartsWith(names[b], Prefix(f)));
  }

  // The shipped hand.

  function Stem(k: nat): string {
    if k == 0 then "r_index_finger_"
    else if k == 1 then "r_middle_finger_"
    else if k == 2 then "r_pinky_"
    else if k == 3 then "r_ring_finger_"
    else "r_thumb_"
  }

  function Part(j: nat): string {
    if j == 0 then "proximal" else if j == 1 then "proximal_abd" else if j == 2 then "middle" else "distal"
  }

  /** HAND_COLLISION_BODY_NAMES: the wrist, then four bodies of each finger. */
  function ShippedNames(): (names: seq<string>)
    ensures |names| == 21
  {
    seq(21, b requires 0 <= b < 21 => if b == 0 then "r_wrist" else Stem((b - 1) / 4) + Part((b - 1) % 4))
  }

  /** The finger of the k-th block of names. */
  function FingerOf(k: nat): (f: nat)
    ensures f < FINGER_COUNT
  {
    if k == 0 then 1 else if k == 1 then 2 else if k == 2 then 4 else if k == 3 then 3 else 0
  }

  lemma StemIsPrefix(k: nat)
    requires k < 5
    ensures Stem(k) == Prefix(FingerOf(k))
  {
  }

  lemma ShippedPrefix(b: nat, f: nat)
    requires b < 21 && f < FINGER_COUNT
    ensures StartsWith(ShippedNames()[b], Prefix(f)) <==> b > 0 && f == FingerOf((b - 1) / 4)
  {
    if b == 0 {
      if StartsWith("r_wrist", Prefix(f)) {
        PrefixesDisjoint("r_wrist", f, f);
      }
    } else {
      var k, j := (b - 1) / 4, (b - 1) % 4;
      StemIsPrefix(k);
      assert (Stem(k) + Part(j))[..|Stem(k)|] == Stem(k);
      PrefixesDisjoint(Stem(k) + Part(j), FingerOf(k), f);
    }
  }

  lemma PartsDiffer(i: nat, j: nat)
    requires i < 4 && j < 4 && Part(i) == Part(j)
    ensures i == j
  {
    assert |Part(0)| == 8 && |Part(1)| == 12 && Part(2)[0] == 'm' && Part(3)[0] == 'd' && |Part(2)| == |Part(3)| == 6;
  }

  lemma ShippedAreDistinct(b: nat, c: nat)
    requires b < c < 21
    ensures ShippedNames()[b] != ShippedNames()[c]
  {
    var names := ShippedNames();
    var k, j := (c - 1) / 4, (c - 1) % 4;
    ShippedPrefix(c, FingerOf(k));
    ShippedPrefix(b, FingerOf(k));
    if names[b] == names[c] {
      assert FingerOf((b - 1) / 4) == FingerOf(k) ==> (b - 1) / 4 == k;
      assert names[b][|Stem(k)|..] == Part((b - 1) % 4) && names[c][|Stem(k)|..] == Part(j);
      PartsDiffer((b - 1) % 4, j);
    }
  }

  /** Four consecutive positions, in order. */
  lemma FourInOrder(s: seq<nat>, a: nat)
    requires |s| == 4 && forall j, k :: 0 <= j < k < 4 ==> s[j] < s[k]
    requires forall k :: 0 <= k < 4 ==> a <= s[k] < a + 4
    ensures s == [a, a + 1, a + 2, a + 3]
  {
    assert s[0] < s[1] < s[2] < s[3];
  }

  lemma BlockIndices(m: Mask, a: nat)
    requires a + 4 <= |m| && forall b :: 0 <= b < |m| ==> (m[b] <==> a <= b < a + 4)
    ensures FlatNonzero(m, |m|) == [a, a + 1, a + 2, a + 3]
  {
    FlatNonzeroIndices(m, |m|);
    CountSplit(m, 0, a, |m|);
    CountSplit(m, a, a + 4, |m|);
    CountUniform(m, 0, a);
    CountUniform(m, a, a + 4);
    CountUniform(m, a + 4, |m|);
    FourInOrder(FlatNonzero(m, |m|), a);
  }

  lemma ShippedGroup(k: nat)
    requires k < 5
    ensures GroupOf(ShippedNames(), FingerOf(k)) == [4 * k + 1, 4 * k + 2, 4 * k + 3, 4 * k + 4]
  {
    var m := PrefixMask(ShippedNames(), FingerOf(k));
    forall b: nat | b < 21 ensures m[b] <==> 4 * k + 1 <= b < 4 * k + 5 {
      ShippedPrefix(b, FingerOf(k));
      SameBlock(b, k);
    }
    BlockIndices(m, 4 * k + 1);
  }

  lemma SameBlock(b: nat, k: nat)
    requires b < 21 && k < 5
    ensures b > 0 && FingerOf(k) == FingerOf((b - 1) / 4) <==> 4 * k + 1 <= b < 4 * k + 5
  {
  }

  lemma ShippedTip(f: nat)
    requires f < FINGER_COUNT
    ensures ShippedNames()[TipIndex(f)] == TipName(f)
  {
    var k := (TipIndex(f) - 1) / 4;
    StemIsPrefix(k);
    assert FingerOf(k) == f && (TipIndex(f) - 1) % 4 == 3;
  }

  lemma PassingNames(names: seq<string>, groups: seq<seq<nat>>)
    requires |names| == BODY_COUNT && Distinct(names) && names[0] == "r_wrist"
    requires |groups| == FINGER_COUNT
    requires forall f: nat :: f < FINGER_COUNT ==> GroupOf(names, f) == groups[f] && |groups[f]| == 4
    requires forall f: nat :: f < FINGER_COUNT ==> names[TipIndex(f)] == TipName(f)
    ensures GroupIndices(names) == Ok(Groups(groups, 0))
  {
    var found := seq(FINGER_COUNT, f requires 0 <= f < FINGER_COUNT => GroupOf(names, f));
    assert found == groups;
  }

  /** Main fact: the shipped names pass, thumb to pinky get their own four bodies and the wrist is the first body. */
  lemma ShippedNamesAreGrouped()
    ensures GroupIndices(ShippedNames())
         == Ok(Groups([[17, 18, 19, 20], [1, 2, 3, 4], [5, 6, 7, 8], [13, 14, 15, 16], [9, 10, 11, 12]], 0))
  {
    var names := ShippedNames();
    var groups := [[17, 18, 19, 20], [1, 2, 3, 4], [5, 6, 7, 8], [13, 14, 15, 16], [9, 10, 11, 12]];
    forall b: nat, c: nat | b < c < 21 ensures names[b] != names[c] {
      ShippedAreDistinct(b, c);
    }
    forall f: nat | f < FINGER_COUNT ensures GroupOf(names, f) == groups[f] && |groups[f]| == 4 {
      ShippedGroup(if f == 0 then 4 else if f == 1 then 0 else if f == 2 then 1 else if f == 3 then 3 else 2);
    }
    forall f: nat | f < FINGER_COUNT ensures names[TipIndex(f)] == TipName(f) {
      ShippedTip(f);
    }
    PassingNames(names, groups);
  }
}
