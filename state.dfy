// The state of a Cl3DModel and its points, as values.
//
// Every Cl3DModelPoint object ever created by the model lives in an arena and is
// addressed by its Handle (its allocation index), which stands for the object
// reference: the source compares points sometimes by reference (List.Remove) and
// sometimes by m_PointID, a removed point's ID can be given to a new point, and a
// cursor other than the one passed to RemovePointFromModel keeps referring to the
// detached object. The ID map m_dPointsInTheModel maps IDs to handles.

module MeshState {
  import opened Types
  import Assoc

  type Handle = nat

  /** A Cl3DModelPointIterator's current point; None is the null (invalid) cursor. */
  type Cursor = Option<Handle>

  /** The Iridium Vector held as a normal; its arithmetic is not part of the model. */
  datatype NormalVector = NormalVector(components: seq<Double>)

  const FlagCount: nat := 8

  /** The fields of a Cl3DModelPoint. */
  datatype PointRec = PointRec(
    id: u32,
    x: Single, y: Single, z: Single,
    rangeX: i32, rangeY: i32,
    u: Single, v: Single,
    normal: Option<NormalVector>,
    color: Argb,
    visited: bool,
    flags: seq<bool>,
    features: Assoc.Dict<string, Double>,
    neighbors: seq<Handle>,
    next: Option<Handle>,
    prev: Option<Handle>)

  /** A point as its constructor leaves it: no range-image placement (-1, -1), texture
      (0, 0), no normal, white, not visited, eight cleared flags, no features, no
      neighbours, unlinked. */
  function NewPoint(id: u32, x: Single, y: Single, z: Single): (p: PointRec)
    ensures p.id == id && p.x == x && p.y == y && p.z == z
    ensures p.rangeX == -1 && p.rangeY == -1 && p.color == White && !p.visited
    ensures |p.flags| == FlagCount && forall i :: 0 <= i < FlagCount ==> !p.flags[i]
    ensures p.features == [] && p.neighbors == [] && p.next.None? && p.prev.None?
  {
    PointRec(id, x, y, z, -1, -1, PositiveZero, PositiveZero, None, White, false,
             seq(FlagCount, _ => false), [], [], None, None)
  }

  /** The fields of a Cl3DModel. */
  datatype ModelState = ModelState(
    arena: seq<PointRec>,
    index: map<u32, Handle>,                      // m_dPointsInTheModel
    head: Option<Handle>,                         // m_pFirstPointInModel
    landmarks: Assoc.Dict<string, Option<Handle>>, // m_dSpecificPoints
    count: u32,                                   // m_uPointsCount
    nextId: u32,                                  // m_NextPointId
    version: u32,                                 // m_ModelVersion
    path: string,                                 // m_sModelPath
    modelType: string,                            // m_sModelType
    expression: string,                           // m_sExpression
    history: seq<string>,                         // m_ListOfPreviousProcessingAlgorithms
    changed: bool)                                // m_bModelHasChanged

  const Unknown: string := "Unknown"

  /** A freshly constructed Cl3DModel. */
  function Empty(): (s: ModelState)
    ensures s.arena == [] && s.index == map[] && s.head.None? && s.landmarks == []
    ensures s.count == 0 && s.nextId == 0 && s.history == []
  {
    ModelState([], map[], None, [], 0, 0, 0, Unknown, Unknown, Unknown, [], true)
  }

  /** The outcome of an operation together with the state it leaves behind; several
      of the source's exceptions are raised after part of the state has changed. */
  datatype Effect<T> = Effect(out: Result<T>, post: ModelState)

  /** The cursor refers to an object of this model's arena. */
  predicate InArena(s: ModelState, c: Cursor) {
    c.Some? ==> c.value < |s.arena|
  }

  predicate HandleOk(s: ModelState, h: Option<Handle>) {
    h.Some? ==> h.value < |s.arena|
  }

  /** Every reference held anywhere in the state points into the arena. */
  ghost predicate WellFormed(s: ModelState) {
    && HandleOk(s, s.head)
    && (forall id :: id in s.index ==> s.index[id] < |s.arena|)
    && (forall i :: 0 <= i < |s.landmarks| ==> HandleOk(s, s.landmarks[i].1))
    && (forall h :: 0 <= h < |s.arena| ==> PointOk(s, s.arena[h]))
  }

  ghost predicate PointOk(s: ModelState, p: PointRec) {
    && HandleOk(s, p.next) && HandleOk(s, p.prev)
    && forall j :: 0 <= j < |p.neighbors| ==> p.neighbors[j] < |s.arena|
  }

  /** The object is the one the ID map holds under its ID: a point of the model. */
  predicate Live(s: ModelState, h: Handle) {
    h < |s.arena| && s.arena[h].id in s.index && s.index[s.arena[h].id] == h
  }

  predicate NoDup<T(==)>(xs: seq<T>) {
    forall i, j :: 0 <= i < j < |xs| ==> xs[i] != xs[j]
  }

  /** hs is a chain: distinct objects linked forward by m_NextPoint and backward by
      m_PrevPoint, the last one's next and the first one's prev null. */
  ghost predicate Linked(s: ModelState, hs: seq<Handle>) {
    Chain(s.arena, hs)
  }

  ghost predicate Chain(a: seq<PointRec>, hs: seq<Handle>) {
    && (forall i :: 0 <= i < |hs| ==> hs[i] < |a|)
    && NoDup(hs)
    && (forall i :: 0 <= i < |hs| - 1 ==> a[hs[i]].next == Some(hs[i + 1]))
    && (forall i :: 0 < i < |hs| ==> a[hs[i]].prev == Some(hs[i - 1]))
    && (hs != [] ==> a[hs[|hs| - 1]].next.None? && a[hs[0]].prev.None?)
  }

  /** hs is the chain that starts at the head. */
  ghost predicate ChainIs(s: ModelState, hs: seq<Handle>) {
    && Linked(s, hs)
    && s.head == (if hs == [] then None else Some(hs[0]))
  }

  /** Adjacency is symmetric: A lists B exactly when B lists A. */
  ghost predicate Symmetric(s: ModelState) {
    SymmetricLists(s.arena)
  }

  ghost predicate SymmetricLists(a: seq<PointRec>) {
    forall x, y :: 0 <= x < |a| && 0 <= y < |a| ==> (y in a[x].neighbors <==> x in a[y].neighbors)
  }

  /** No neighbour list repeats an entry or holds its own point. */
  ghost predicate SimpleLists(s: ModelState) {
    forall x :: 0 <= x < |s.arena| ==> NoDup(s.arena[x].neighbors) && x !in s.arena[x].neighbors
  }

  /** The ID map is consistent: each entry holds an object carrying that ID. */
  ghost predicate IndexSound(s: ModelState) {
    forall id :: id in s.index ==> s.index[id] < |s.arena| && s.arena[s.index[id]].id == id
  }

  /** Landmark labels are bound to points of the model. */
  ghost predicate LandmarksLive(s: ModelState) {
    forall i :: 0 <= i < |s.landmarks| ==>
      s.landmarks[i].1.Some? && Live(s, s.landmarks[i].1.value)
  }

  /** Points of the model neighbour points of the model only. */
  ghost predicate NeighborsLive(s: ModelState) {
    forall a: Handle, j :: Live(s, a) && 0 <= j < |s.arena[a].neighbors| ==> Live(s, s.arena[a].neighbors[j])
  }

  /** Per-point shape: distinct feature names and eight flags. */
  ghost predicate PointsShaped(s: ModelState) {
    forall h: Handle :: Live(s, h) ==> Assoc.Unique(s.arena[h].features) && |s.arena[h].flags| == FlagCount
  }

  /** The model invariant: the chain hs visits exactly the points of the ID map, the
      count equals the size of the ID map and the length of the chain, adjacency is
      symmetric and stays among the points of the model, and every landmark names a
      point of the model. */
  ghost predicate Valid(s: ModelState, hs: seq<Handle>) {
    && WellFormed(s)
    && ChainIs(s, hs)
    && IndexSound(s)
    && (forall h :: h in hs <==> Live(s, h))
    && s.count == |s.index|
    && |s.index| == |hs|
    && Symmetric(s)
    && SimpleLists(s)
    && NeighborsLive(s)
    && Assoc.Unique(s.landmarks)
    && LandmarksLive(s)
    && PointsShaped(s)
  }

  /** List<T>.Remove: drops the first occurrence of x, if any. */
  function RemoveFirst(xs: seq<Handle>, x: Handle): seq<Handle>
  {
    if xs == [] then []
    else if xs[0] == x then xs[1..]
    else [xs[0]] + RemoveFirst(xs[1..], x)
  }

  /** What List<T>.Remove does: without x nothing changes; otherwise exactly one entry
      goes, every other value stays, and a list without repeats loses x entirely. */
  lemma RemoveFirstFacts(xs: seq<Handle>, x: Handle)
    ensures var r := RemoveFirst(xs, x);
      && (x !in xs ==> r == xs)
      && (x in xs ==> |r| == |xs| - 1)
      && (forall y :: y != x ==> (y in r <==> y in xs))
      && (NoDup(xs) ==> NoDup(r) && x !in r)
      && (forall j :: 0 <= j < |r| ==> r[j] in xs)
  {
    RemoveFirstShape(xs, x);
    RemoveFirstMembers(xs, x);
    if NoDup(xs) {
      RemoveFirstNoDup(xs, x);
    }
  }

  lemma {:induction false} RemoveFirstShape(xs: seq<Handle>, x: Handle)
    ensures x !in xs ==> RemoveFirst(xs, x) == xs
    ensures x in xs ==> |RemoveFirst(xs, x)| == |xs| - 1
  {
    if xs != [] && xs[0] != x {
      RemoveFirstShape(xs[1..], x);
      assert x in xs ==> x in xs[1..];
    }
  }

  lemma {:induction false} RemoveFirstMembers(xs: seq<Handle>, x: Handle)
    ensures forall y :: y != x ==> (y in RemoveFirst(xs, x) <==> y in xs)
    ensures forall j :: 0 <= j < |RemoveFirst(xs, x)| ==> RemoveFirst(xs, x)[j] in xs
  {
    if xs != [] && xs[0] != x {
      RemoveFirstMembers(xs[1..], x);
      var t := RemoveFirst(xs[1..], x);
      assert RemoveFirst(xs, x) == [xs[0]] + t;
      assert forall j :: 0 <= j < |t| ==> t[j] in xs[1..];
    }
  }

  lemma {:induction false} RemoveFirstNoDup(xs: seq<Handle>, x: Handle)
    requires NoDup(xs)
    ensures NoDup(RemoveFirst(xs, x)) && x !in RemoveFirst(xs, x)
  {
    if xs != [] {
      assert xs[0] !in xs[1..];
      if xs[0] != x {
        RemoveFirstNoDup(xs[1..], x);
        RemoveFirstMembers(xs[1..], x);
        var t := RemoveFirst(xs[1..], x);
        assert xs[0] !in t;
        assert RemoveFirst(xs, x) == [xs[0]] + t;
      } else {
        assert x !in xs[1..];
      }
    }
  }

  /** The arena with one point replaced. */
  function Update(s: ModelState, h: Handle, p: PointRec): (r: ModelState)
    requires h < |s.arena|
    ensures |r.arena| == |s.arena| && r.arena[h] == p
    ensures forall g :: 0 <= g < |s.arena| && g != h ==> r.arena[g] == s.arena[g]
  {
    s.(arena := s.arena[h := p])
  }

  /** Replacing a point by one with the same ID and links changes neither which
      objects are points of the model nor the chain. */
  lemma UpdateKeepsStructure(s: ModelState, hs: seq<Handle>, h: Handle, p: PointRec)
    requires h < |s.arena| && ChainIs(s, hs)
    requires p.id == s.arena[h].id && p.next == s.arena[h].next && p.prev == s.arena[h].prev
    ensures ChainIs(Update(s, h, p), hs)
    ensures forall g :: Live(Update(s, h, p), g) <==> Live(s, g)
    ensures IndexSound(s) ==> IndexSound(Update(s, h, p))
  {
  }

  /** t keeps s's points and links: the same arena size, IDs and chain links, and
      every field of the model other than the arena unchanged. */
  ghost predicate SameSkeleton(s: ModelState, t: ModelState) {
    && |t.arena| == |s.arena|
    && t.(arena := s.arena) == s
    && forall g :: 0 <= g < |s.arena| ==>
         t.arena[g].id == s.arena[g].id && t.arena[g].next == s.arena[g].next && t.arena[g].prev == s.arena[g].prev
  }

  /** A state with the same skeleton has the same points of the model and the same
      chain, and keeps the ID map and the landmarks sound. */
  lemma SkeletonKeeps(s: ModelState, t: ModelState, hs: seq<Handle>)
    requires SameSkeleton(s, t)
    ensures forall g :: Live(t, g) <==> Live(s, g)
    ensures ChainIs(s, hs) ==> ChainIs(t, hs)
    ensures IndexSound(s) ==> IndexSound(t)
    ensures LandmarksLive(s) ==> LandmarksLive(t)
    ensures t.landmarks == s.landmarks && t.index == s.index && t.head == s.head && t.count == s.count
  {
    assert t.landmarks == t.(arena := s.arena).landmarks;
    assert t.index == t.(arena := s.arena).index;
    assert t.head == t.(arena := s.arena).head;
    assert t.count == t.(arena := s.arena).count;
  }
}
