/** `_mesh_preview`: a smaller mesh for display, re-indexed onto the vertices it still uses. */
module MeshPreview {

  type Face = (int, int, int)

  datatype Preview<V> = Mesh(vertices: seq<V>, faces: seq<Face>) | ZeroDivision

  /** The number of elements of s[::stride]. */
  function StridedLength(length: nat, stride: int): (n: nat)
    requires stride > 0
    ensures n * stride >= length && (n > 0 ==> (n - 1) * stride < length)
  {
    if length <= stride then (if length == 0 then 0 else 1)
    else 1 + StridedLength(length - stride, stride)
  }

  lemma StrideInRange(length: nat, stride: int, k: nat)
    requires stride > 0 && k < StridedLength(length, stride)
    ensures 0 <= k * stride < length
  {
    ProductMonotone(k, StridedLength(length, stride) - 1, stride);
  }

  lemma ProductMonotone(a: int, b: int, q: int)
    ensures a <= b && 0 <= q ==> a * q <= b * q
  {
  }

  /** faces[::stride]. */
  function Strided<T>(s: seq<T>, stride: int): (r: seq<T>)
    requires stride > 0
    ensures |r| == StridedLength(|s|, stride)
  {
    seq(StridedLength(|s|, stride), k requires 0 <= k < StridedLength(|s|, stride) =>
      StrideInRange(|s|, stride, k); s[k * stride])
  }

  lemma StridedAt<T>(s: seq<T>, stride: int, k: nat)
    requires stride > 0 && k < |Strided(s, stride)|
    ensures 0 <= k * stride < |s| && Strided(s, stride)[k] == s[k * stride]
  {
    StrideInRange(|s|, stride, k);
  }

  /** s[:count], a negative count dropping that many elements from the end. */
  function Leading<T>(s: seq<T>, count: int): (r: seq<T>)
    ensures r <= s
    ensures count < 0 ==> |r| == if |s| + count < 0 then 0 else |s| + count
    ensures count >= 0 ==> |r| == if count < |s| then count else |s|
  {
    if count < 0 then s[..if |s| + count < 0 then 0 else |s| + count]
    else s[..if count < |s| then count else |s|]
  }

  function Corners(faces: seq<Face>): (c: seq<int>)
    ensures |c| == 3 * |faces|
    ensures forall k :: 0 <= k < |faces| ==> (c[3 * k], c[3 * k + 1], c[3 * k + 2]) == faces[k]
  {
    if faces == [] then []
    else
      var rest := Corners(faces[1..]);
      var c := [faces[0].0, faces[0].1, faces[0].2] + rest;
      assert forall k :: 1 <= k < |faces| ==> c[3 * k] == rest[3 * (k - 1)] && faces[k] == faces[1..][k - 1];
      c
  }

  /** np.unique: the distinct values in increasing order. */
  predicate Increasing(s: seq<int>) {
    forall j, k :: 0 <= j < k < |s| ==> s[j] < s[k]
  }

  function Insert(s: seq<int>, x: int): (r: seq<int>)
    requires Increasing(s)
    ensures Increasing(r)
    ensures forall y :: y in r <==> y == x || y in s
    ensures r != [] && (r[0] == x || (s != [] && r[0] == s[0]))
  {
    if s == [] || x < s[0] then [x] + s
    else if x == s[0] then s
    else
      var rest := Insert(s[1..], x);
      assert s == [s[0]] + s[1..];
      [s[0]] + rest
  }

  function Unique(s: seq<int>): (u: seq<int>)
    ensures Increasing(u)
    ensures forall y :: y in u <==> y in s
  {
    if s == [] then [] else Insert(Unique(s[1..]), s[0])
  }

  /** The `return_inverse` entry of one value: its position in the unique list. */
  function PositionOf(u: seq<int>, x: int): (k: nat)
    requires x in u
    ensures k < |u| && u[k] == x
  {
    if u[0] == x then 0 else 1 + PositionOf(u[1..], x)
  }

  predicate InRange(face: Face, n: nat) {
    0 <= face.0 < n && 0 <= face.1 < n && 0 <= face.2 < n
  }

  function Chosen(faces: seq<Face>, cap: int): seq<Face>
    requires cap != 0
  {
    Leading(Strided(faces, Stride(faces, cap)), cap)
  }

  /** `_mesh_preview`. Division by a zero cap raises; faces index vertices. */
  function Reduced<V>(vertices: seq<V>, faces: seq<Face>, cap: int): Preview<V>
    requires forall k :: 0 <= k < |faces| ==> InRange(faces[k], |vertices|)
  {
    if |faces| <= cap then Mesh(vertices, faces)
    else if cap == 0 then ZeroDivision
    else
      var chosen := Chosen(faces, cap);
      ChosenFromFaces(faces, cap);
      var used := Unique(Corners(chosen));
      CornersInRange(chosen, |vertices|);
      Mesh(seq(|used|, k requires 0 <= k < |used| => assert used[k] in used; vertices[used[k]]),
           seq(|chosen|, k requires 0 <= k < |chosen| => CornerUsed(chosen, k); Reindexed(used, chosen[k])))
  }

  function Reindexed(used: seq<int>, face: Face): Face
    requires face.0 in used && face.1 in used && face.2 in used
  {
    (PositionOf(used, face.0), PositionOf(used, face.1), PositionOf(used, face.2))
  }

  lemma CornerUsed(faces: seq<Face>, k: nat)
    requires k < |faces|
    ensures faces[k].0 in Corners(faces) && faces[k].1 in Corners(faces) && faces[k].2 in Corners(faces)
  {
    var c := Corners(faces);
    assert c[3 * k] == faces[k].0 && c[3 * k + 1] == faces[k].1 && c[3 * k + 2] == faces[k].2;
  }

  lemma {:induction false} CornersInRange(faces: seq<Face>, n: nat)
    requires forall k :: 0 <= k < |faces| ==> InRange(faces[k], n)
    ensures forall v :: v in Corners(faces) ==> 0 <= v < n
  {
    if faces == [] {
    } else {
      CornersInRange(faces[1..], n);
    }
  }

  function Stride(faces: seq<Face>, cap: int): int
    requires cap != 0
  {
    if cap < 0 || |faces| / cap < 1 then 1 else |faces| / cap
  }

  /** The chosen faces are every stride-th face, in order. */
  lemma {:induction false} ChosenFromFaces(faces: seq<Face>, cap: int)
    requires cap != 0
    ensures forall k :: 0 <= k < |Chosen(faces, cap)| ==>
      0 <= k * Stride(faces, cap) < |faces| && Chosen(faces, cap)[k] == faces[k * Stride(faces, cap)]
  {
    forall k | 0 <= k < |Chosen(faces, cap)|
      ensures 0 <= k * Stride(faces, cap) < |faces| && Chosen(faces, cap)[k] == faces[k * Stride(faces, cap)]
    {
      StridedAt(faces, Stride(faces, cap), k);
    }
  }

  /** Main fact, counting: with a positive cap exactly min(len, cap) faces are kept. */
  lemma KeepsExactlyTheCap<V>(vertices: seq<V>, faces: seq<Face>, cap: int)
    requires cap > 0 && forall k :: 0 <= k < |faces| ==> InRange(faces[k], |vertices|)
    ensures var p := Reduced(vertices, faces, cap);
      p.Mesh? && |p.faces| == if |faces| <= cap then |faces| else cap
  {
    if cap < |faces| {
      var stride := |faces| / cap;
      var n := |Strided(faces, stride)|;
      StrideReachesCap(|faces|, cap, n);
    }
  }

  lemma StrideReachesCap(length: nat, cap: int, n: int)
    requires 0 < cap < length && n * (length / cap) >= length
    ensures length / cap >= 1 && n >= cap
  {
    var q := length / cap;
    assert length == q * cap + length % cap;
    ProductMonotone(q, 0, cap);
    ProductMonotone(n, cap - 1, q);
    assert (cap - 1) * q == q * cap - q;
  }

  /** It raises exactly on a zero cap with a face to drop. */
  lemma RaisesIff<V>(vertices: seq<V>, faces: seq<Face>, cap: int)
    requires forall k :: 0 <= k < |faces| ==> InRange(faces[k], |vertices|)
    ensures Reduced(vertices, faces, cap).ZeroDivision? <==> cap == 0 && faces != []
  {
  }

  function Least(a: int, b: int): int {
    if a < b then a else b
  }

  /** A negative cap keeps every face but that many from the end. */
  lemma NegativeCapDrops<V>(vertices: seq<V>, faces: seq<Face>, cap: int)
    requires cap < 0 && forall k :: 0 <= k < |faces| ==> InRange(faces[k], |vertices|)
    ensures var p := Reduced(vertices, faces, cap);
      p.Mesh? && |p.faces| == if |faces| + cap < 0 then 0 else |faces| + cap
  {
    StrideOne(|faces|);
  }

  lemma {:induction false} StrideOne(length: nat)
    ensures StridedLength(length, 1) == length
  {
    if length <= 1 {
    } else {
      StrideOne(length - 1);
    }
  }

  /** One face: a zero cap raises, and a cap of -1 keeps no face. */
  lemma OneFaceCaps()
    ensures Reduced([0], [(0, 0, 0)], 0).ZeroDivision?
    ensures Reduced([0], [(0, 0, 0)], -1).Mesh? && Reduced([0], [(0, 0, 0)], -1).faces == []
  {
    RaisesIff([0], [(0, 0, 0)], 0);
    NegativeCapDrops([0], [(0, 0, 0)], -1);
  }

  /** Main fact, counting: the smaller of the cap and the number of faces is kept iff the cap is positive or
      nothing has to be dropped. */
  lemma CountIsLeastIff<V>(vertices: seq<V>, faces: seq<Face>, cap: int)
    requires forall k :: 0 <= k < |faces| ==> InRange(faces[k], |vertices|)
    ensures var p := Reduced(vertices, faces, cap);
      p.Mesh? && |p.faces| == Least(|faces|, cap) <==> cap > 0 || |faces| <= cap
  {
    if cap > 0 {
      KeepsExactlyTheCap(vertices, faces, cap);
    } else if cap < 0 {
      NegativeCapDrops(vertices, faces, cap);
    }
  }

  /** Main fact, geometry: each kept corner denotes the vertex it denoted before, for any cap. */
  lemma PreservesGeometry<V>(vertices: seq<V>, faces: seq<Face>, cap: int, k: nat)
    requires forall j :: 0 <= j < |faces| ==> InRange(faces[j], |vertices|)
    requires |faces| > cap && cap != 0 && k < |Reduced(vertices, faces, cap).faces|
    ensures var p := Reduced(vertices, faces, cap);
      var original := k * Stride(faces, cap);
      && 0 <= original < |faces| && InRange(p.faces[k], |p.vertices|)
      && p.vertices[p.faces[k].0] == vertices[faces[original].0]
      && p.vertices[p.faces[k].1] == vertices[faces[original].1]
      && p.vertices[p.faces[k].2] == vertices[faces[original].2]
  {
    ChosenFromFaces(faces, cap);
    CornersInRange(Chosen(faces, cap), |vertices|);
    CornerUsed(Chosen(faces, cap), k);
  }

  /** Main fact, economy: every kept vertex comes from its own source index, and some corner uses it. */
  lemma EveryVertexUsedOnce<V>(vertices: seq<V>, faces: seq<Face>, cap: int)
    requires forall j :: 0 <= j < |faces| ==> InRange(faces[j], |vertices|)
    requires |faces| > cap && cap != 0
    ensures var p := Reduced(vertices, faces, cap);
      var used := Unique(Corners(Chosen(faces, cap)));
      && |p.vertices| == |used| && Increasing(used)
      && (forall j :: 0 <= j < |used| ==> 0 <= used[j] < |vertices| && p.vertices[j] == vertices[used[j]])
      && (forall j :: 0 <= j < |used| ==> UsedBySome(p.faces, j))
  {
    ChosenFromFaces(faces, cap);
    CornersInRange(Chosen(faces, cap), |vertices|);
    ReindexedFacesUseAll(Chosen(faces, cap), Reduced(vertices, faces, cap).faces);
  }

  lemma ReindexedFacesUseAll(chosen: seq<Face>, faces: seq<Face>)
    requires |faces| == |chosen|
    requires forall k :: 0 <= k < |chosen| ==>
      (CornerUsed(chosen, k); faces[k] == Reindexed(Unique(Corners(chosen)), chosen[k]))
    ensures forall j :: 0 <= j < |Unique(Corners(chosen))| ==>
      Unique(Corners(chosen))[j] in Corners(chosen) && UsedBySome(faces, j)
  {
    var used := Unique(Corners(chosen));
    forall j | 0 <= j < |used| ensures used[j] in Corners(chosen) && UsedBySome(faces, j) {
      assert used[j] in used;
      var k := CornerOwner(chosen, used[j]);
      CornerUsed(chosen, k);
      PositionIsIndex(used, j);
      assert Uses(faces[k], j);
    }
  }

  /** Some face has the vertex at position j as a corner. */
  predicate UsedBySome(faces: seq<Face>, j: int) {
    exists k :: 0 <= k < |faces| && Uses(faces[k], j)
  }

  predicate Uses(face: Face, j: int) {
    face.0 == j || face.1 == j || face.2 == j
  }

  lemma PositionIsIndex(u: seq<int>, j: nat)
    requires Increasing(u) && j < |u|
    ensures PositionOf(u, u[j]) == j
  {
  }

  lemma {:induction false} CornerOwner(faces: seq<Face>, v: int) returns (k: nat)
    requires v in Corners(faces)
    ensures k < |faces| && (faces[k].0 == v || faces[k].1 == v || faces[k].2 == v)
  {
    if v == faces[0].0 || v == faces[0].1 || v == faces[0].2 {
      k := 0;
    } else {
      k := CornerOwner(faces[1..], v);
      k := k + 1;
    }
  }

  // The whole preview.

  predicate Corner(face: Face, v: int) {
    face.0 == v || face.1 == v || face.2 == v
  }

  predicate HasCorner(faces: seq<Face>, v: int) {
    exists k :: 0 <= k < |faces| && Corner(faces[k], v)
  }

  /** A face of the preview is a kept one, by the positions of its corners among the used vertices. */
  predicate SameFace(used: seq<int>, face: Face, kept: Face) {
    InRange(face, |used|) && used[face.0] == kept.0 && used[face.1] == kept.1 && used[face.2] == kept.2
  }

  /** The preview is the kept faces on just the vertices they use, in the order of the source. */
  ghost predicate Reindexes<V>(p: Preview<V>, vertices: seq<V>, kept: seq<Face>, used: seq<int>) {
    && p.Mesh? && |p.faces| == |kept| && |p.vertices| == |used| && Increasing(used)
    && (forall v :: v in used <==> HasCorner(kept, v))
    && (forall j :: 0 <= j < |used| ==> 0 <= used[j] < |vertices| && p.vertices[j] == vertices[used[j]])
    && forall k :: 0 <= k < |kept| ==> SameFace(used, p.faces[k], kept[k])
  }

  lemma ReindexedIsSame(used: seq<int>, face: Face)
    requires face.0 in used && face.1 in used && face.2 in used
    ensures SameFace(used, Reindexed(used, face), face)
  {
  }

  lemma UsedAreCorners(kept: seq<Face>, v: int)
    ensures v in Unique(Corners(kept)) <==> HasCorner(kept, v)
  {
    if v in Corners(kept) {
      var k := CornerOwner(kept, v);
      assert Corner(kept[k], v);
    }
    if k :| 0 <= k < |kept| && Corner(kept[k], v) {
      CornerUsed(kept, k);
    }
  }

  lemma ReducedVertices<V>(vertices: seq<V>, faces: seq<Face>, cap: int)
    requires forall k :: 0 <= k < |faces| ==> InRange(faces[k], |vertices|)
    requires |faces| > cap && cap != 0
    ensures var p, used := Reduced(vertices, faces, cap), Unique(Corners(Chosen(faces, cap)));
      && p.Mesh? && |p.vertices| == |used| && |p.faces| == |Chosen(faces, cap)|
      && forall j :: 0 <= j < |used| ==> 0 <= used[j] < |vertices| && p.vertices[j] == vertices[used[j]]
  {
    var used := Unique(Corners(Chosen(faces, cap)));
    ChosenFromFaces(faces, cap);
    CornersInRange(Chosen(faces, cap), |vertices|);
    assert forall j :: 0 <= j < |used| ==> used[j] in used;
  }

  lemma ReducedFace<V>(vertices: seq<V>, faces: seq<Face>, cap: int, k: nat)
    requires forall j :: 0 <= j < |faces| ==> InRange(faces[j], |vertices|)
    requires |faces| > cap && cap != 0 && k < |Chosen(faces, cap)|
    ensures SameFace(Unique(Corners(Chosen(faces, cap))), Reduced(vertices, faces, cap).faces[k], Chosen(faces, cap)[k])
  {
    var kept := Chosen(faces, cap);
    ChosenFromFaces(faces, cap);
    CornersInRange(kept, |vertices|);
    CornerUsed(kept, k);
    ReindexedIsSame(Unique(Corners(kept)), kept[k]);
  }

  lemma ReducedReindexes<V>(vertices: seq<V>, faces: seq<Face>, cap: int, kept: seq<Face>, used: seq<int>)
    requires forall k :: 0 <= k < |faces| ==> InRange(faces[k], |vertices|)
    requires |faces| > cap && cap != 0 && kept == Chosen(faces, cap) && used == Unique(Corners(kept))
    ensures Reindexes(Reduced(vertices, faces, cap), vertices, kept, used)
  {
    ReducedVertices(vertices, faces, cap);
    forall v ensures v in used <==> HasCorner(kept, v) {
      UsedAreCorners(kept, v);
    }
    forall k | 0 <= k < |kept| ensures SameFace(used, Reduced(vertices, faces, cap).faces[k], kept[k]) {
      ReducedFace(vertices, faces, cap, k);
    }
  }

  lemma ChosenOfCap(faces: seq<Face>, cap: int, q: int)
    requires 0 < cap < |faces| && q * cap <= |faces| < (q + 1) * cap
    ensures |Chosen(faces, cap)| == cap
    ensures forall k :: 0 <= k < cap ==> 0 <= k * q < |faces| && Chosen(faces, cap)[k] == faces[k * q]
  {
    QuotientIs(|faces|, cap, q);
    StrideReachesCap(|faces|, cap, |Strided(faces, q)|);
    ChosenFromFaces(faces, cap);
  }

  lemma QuotientIs(length: nat, cap: int, q: int)
    requires 0 < cap < length && q * cap <= length < (q + 1) * cap
    ensures length / cap == q && 1 <= q
  {
    var p := length / cap;
    assert length == p * cap + length % cap;
    ProductMonotone(p + 1, q, cap);
    ProductMonotone(q + 1, p, cap);
    assert (p + 1) * cap == p * cap + cap && (q + 1) * cap == q * cap + cap;
  }

  lemma {:induction false} StridedByOne<T>(s: seq<T>)
    ensures Strided(s, 1) == s
  {
    StrideOne(|s|);
    forall k | 0 <= k < |s| ensures Strided(s, 1)[k] == s[k] {
      StridedAt(s, 1, k);
    }
  }

  /** Main fact, a cap that bites: with q the integer part of faces over cap, the preview is faces 0, q, 2q and so on,
      as many as the cap allows. */
  lemma PreviewOfCap<V>(vertices: seq<V>, faces: seq<Face>, cap: int, q: int) returns (kept: seq<Face>, used: seq<int>)
    requires forall k :: 0 <= k < |faces| ==> InRange(faces[k], |vertices|)
    requires 0 < cap < |faces| && q * cap <= |faces| < (q + 1) * cap
    ensures |kept| == cap && forall k :: 0 <= k < cap ==> 0 <= k * q < |faces| && kept[k] == faces[k * q]
    ensures Reindexes(Reduced(vertices, faces, cap), vertices, kept, used)
  {
    kept := Chosen(faces, cap);
    used := Unique(Corners(kept));
    ChosenOfCap(faces, cap, q);
    ReducedReindexes(vertices, faces, cap, kept, used);
  }

  /** A cap that does not bite changes nothing, and a negative one drops faces from the end. */
  lemma PreviewOtherwise<V>(vertices: seq<V>, faces: seq<Face>, cap: int) returns (used: seq<int>)
    requires forall k :: 0 <= k < |faces| ==> InRange(faces[k], |vertices|)
    ensures |faces| <= cap ==> Reduced(vertices, faces, cap) == Mesh(vertices, faces)
    ensures cap < 0 ==>
      Reindexes(Reduced(vertices, faces, cap), vertices, faces[..if |faces| + cap < 0 then 0 else |faces| + cap], used)
  {
    used := [];
    if cap < 0 {
      StridedByOne(faces);
      used := Unique(Corners(Chosen(faces, cap)));
      ReducedReindexes(vertices, faces, cap, Chosen(faces, cap), used);
    }
  }
}
