// ResetModel, ResetVisitedPoints and ResetColor: walks along the chain that change
// every point of the model. Each is given here by the state it leaves behind for the
// chain hs that starts at the head; the loops themselves are in the Mesh class.

module Resets {
  import opened Types
  import opened MeshState
  import Lifecycle

  /** The chain loop of ResetModel: every point on the chain loses its neighbour list
      and both links. */
  function Unchained(a: seq<PointRec>, hs: seq<Handle>): seq<PointRec> {
    seq(|a|, g requires 0 <= g < |a| => if g in hs then a[g].(neighbors := [], next := None, prev := None) else a[g])
  }

  /** ResetModel as written: the version, path and type go back to their defaults, the
      labels are cleared and the chain is taken apart, but the ID map, the count and
      the ID counter are kept. */
  function ResetModelAsWritten(s: ModelState, hs: seq<Handle>): (t: ModelState)
    ensures t.head.None? && t.landmarks == [] && |t.arena| == |s.arena|
    ensures t.index == s.index && t.count == s.count
  {
    s.(version := 0, path := Unknown, modelType := Unknown, changed := true, landmarks := [],
       arena := Unchained(s.arena, hs), head := None)
  }

  /** ResetModel as evidently intended: an empty model, whose ID map and count are
      cleared with the chain. The ID counter is kept, which stays harmless. */
  function ResetModel(s: ModelState, hs: seq<Handle>): ModelState {
    ResetModelAsWritten(s, hs).(index := map[], count := 0)
  }

  /** The loop of ResetVisitedPoints: every point on the chain is marked unvisited. */
  function ResetVisited(s: ModelState, hs: seq<Handle>): ModelState {
    s.(arena := seq(|s.arena|, g requires 0 <= g < |s.arena| => if g in hs then s.arena[g].(visited := false) else s.arena[g]))
  }

  /** ResetColor: every point on the chain takes the colour, and the model is marked
      changed, except that an empty model returns before either. */
  function ResetColor(s: ModelState, hs: seq<Handle>, col: Argb): ModelState {
    if s.head.None? then s
    else s.(arena := seq(|s.arena|, g requires 0 <= g < |s.arena| => if g in hs then s.arena[g].(color := col) else s.arena[g]),
            changed := true)
  }

  /** The corrected reset leaves a valid empty model: no point is in the model, no label
      is left, every point of the old chain is unlinked and lists no neighbour, and the
      version, path and type are back to their defaults. */
  lemma ResetModelValid(s: ModelState, hs: seq<Handle>)
    requires Valid(s, hs)
    ensures var t := ResetModel(s, hs);
      && Valid(t, [])
      && (forall g: Handle :: !Live(t, g))
      && t.landmarks == [] && t.version == 0 && t.path == Unknown && t.modelType == Unknown
      && (forall i :: 0 <= i < |hs| ==> t.arena[hs[i]].neighbors == [] && t.arena[hs[i]].next.None? && t.arena[hs[i]].prev.None?)
      && |t.arena| == |s.arena|
  {
    var t := ResetModel(s, hs);
    ResetWellFormed(s, hs, t);
    ResetSymmetric(s, hs, t);
    EmptyValid(t);
    ResetShape(s, hs);
  }

  lemma ResetShape(s: ModelState, hs: seq<Handle>)
    requires forall i :: 0 <= i < |hs| ==> hs[i] < |s.arena|
    ensures var t := ResetModel(s, hs);
      && (forall g: Handle :: !Live(t, g))
      && (forall i :: 0 <= i < |hs| ==> t.arena[hs[i]].neighbors == [] && t.arena[hs[i]].next.None? && t.arena[hs[i]].prev.None?)
      && |t.arena| == |s.arena|
  {
  }

  /** A well-formed state with an empty ID map, no head and no label is a valid empty
      model. */
  lemma EmptyValid(t: ModelState)
    requires WellFormed(t) && SimpleLists(t) && Symmetric(t)
    requires t.index == map[] && t.count == 0 && t.head.None? && t.landmarks == []
    ensures Valid(t, [])
  {
  }

  lemma ResetWellFormed(s: ModelState, hs: seq<Handle>, t: ModelState)
    requires WellFormed(s) && SimpleLists(s) && t == ResetModel(s, hs)
    ensures WellFormed(t) && SimpleLists(t)
  {
    forall g | 0 <= g < |t.arena| ensures PointOk(t, t.arena[g]) {
      assert PointOk(s, s.arena[g]);
    }
  }

  /** Points off the chain list only points off the chain, so clearing the lists on the
      chain keeps adjacency symmetric. */
  lemma ResetSymmetric(s: ModelState, hs: seq<Handle>, t: ModelState)
    requires Symmetric(s) && NeighborsLive(s) && (forall h :: h in hs <==> Live(s, h)) && t == ResetModel(s, hs)
    ensures Symmetric(t)
  {
    forall x, y | 0 <= x < |t.arena| && 0 <= y < |t.arena| ensures y in t.arena[x].neighbors <==> x in t.arena[y].neighbors {
      if x !in hs && y !in hs {
        assert y in s.arena[x].neighbors <==> x in s.arena[y].neighbors;
      } else if x in hs && y !in hs {
        OffChainLists(s, hs, y, x);
      } else if y in hs && x !in hs {
        OffChainLists(s, hs, x, y);
      }
    }
  }

  /** A point off the chain lists no point on it. */
  lemma OffChainLists(s: ModelState, hs: seq<Handle>, y: Handle, x: Handle)
    requires Symmetric(s) && NeighborsLive(s) && (forall h :: h in hs <==> Live(s, h))
    requires y < |s.arena| && y !in hs && x in hs
    ensures x !in s.arena[y].neighbors
  {
    assert Live(s, x);
  }

  /** The model with one point, ID 0, and no label. */
  function OnePointModel(): (s: ModelState)
    ensures Valid(s, [0])
  {
    var s := Empty().(arena := [NewPoint(0, PositiveZero, PositiveZero, PositiveZero)], index := map[0 := 0],
                      head := Some(0), count := 1);
    assert forall h :: h in [0] <==> Live(s, h);
    s
  }

  /** After the source's reset of a one-point model the chain is empty but the count is
      still 1 and the ID map still holds ID 0, so adding a point with ID 0 to the empty
      model throws; after the intended reset it succeeds. */
  lemma ResetKeepsStaleIds()
    ensures var t := ResetModelAsWritten(OnePointModel(), [0]);
      && t.head.None? && t.count == 1 && !Valid(t, [])
      && Lifecycle.AddPointWithId(t, PositiveZero, PositiveZero, PositiveZero, 0).out == Err(DuplicateId)
    ensures Lifecycle.AddPointWithId(ResetModel(OnePointModel(), [0]), PositiveZero, PositiveZero, PositiveZero, 0).out.Ok?
  {
    var t := ResetModelAsWritten(OnePointModel(), [0]);
    assert Live(t, 0);
  }

  /** ResetVisitedPoints keeps the model invariant, leaves every point of the model
      unvisited and changes nothing else. */
  lemma ResetVisitedValid(s: ModelState, hs: seq<Handle>)
    requires Valid(s, hs)
    ensures var t := ResetVisited(s, hs);
      && Valid(t, hs)
      && (forall g: Handle :: Live(t, g) ==> !t.arena[g].visited)
      && (forall g :: 0 <= g < |s.arena| ==> t.arena[g] == s.arena[g].(visited := t.arena[g].visited))
  {
    var t := ResetVisited(s, hs);
    VisitedShape(s, hs);
    MarksValid(s, hs, t);
  }

  lemma VisitedShape(s: ModelState, hs: seq<Handle>)
    ensures var t := ResetVisited(s, hs);
      && SameSkeleton(s, t) && SameLists(s.arena, t.arena)
      && (forall g :: 0 <= g < |s.arena| ==> t.arena[g] == s.arena[g].(visited := t.arena[g].visited))
      && (forall g :: g in hs && g < |s.arena| ==> !t.arena[g].visited)
  {
  }

  /** ResetColor keeps the model invariant, paints every point of the model and changes
      nothing else; the model is marked changed exactly when it has a point. */
  lemma ResetColorValid(s: ModelState, hs: seq<Handle>, col: Argb)
    requires Valid(s, hs)
    ensures var t := ResetColor(s, hs, col);
      && Valid(t, hs)
      && (forall g: Handle :: Live(t, g) ==> t.arena[g].color == col)
      && (forall g :: 0 <= g < |s.arena| ==> t.arena[g] == s.arena[g].(color := t.arena[g].color))
      && t.changed == (hs != [] || s.changed)
  {
    var t := ResetColor(s, hs, col);
    ChangedValid(s, hs, t.changed);
    ColorShape(s, hs, col);
    MarksValid(s.(changed := t.changed), hs, t);
  }

  lemma ColorShape(s: ModelState, hs: seq<Handle>, col: Argb)
    requires ChainIs(s, hs)
    ensures var t := ResetColor(s, hs, col);
      && SameSkeleton(s.(changed := t.changed), t) && SameLists(s.arena, t.arena)
      && (forall g :: 0 <= g < |s.arena| ==> t.arena[g] == s.arena[g].(color := t.arena[g].color))
      && (forall g :: g in hs && g < |s.arena| ==> t.arena[g].color == col)
      && t.changed == (hs != [] || s.changed)
  {
  }

  /** The changed flag plays no part in the invariant. */
  lemma ChangedValid(s: ModelState, hs: seq<Handle>, b: bool)
    requires Valid(s, hs)
    ensures Valid(s.(changed := b), hs)
  {
    var t := s.(changed := b);
    assert t.arena == s.arena && t.index == s.index && t.head == s.head && t.landmarks == s.landmarks;
  }

  /** Two arenas whose points have the same neighbours, features and flags. */
  ghost predicate SameLists(a: seq<PointRec>, b: seq<PointRec>) {
    |b| == |a| && forall g :: 0 <= g < |a| ==>
      b[g].neighbors == a[g].neighbors && b[g].features == a[g].features && b[g].flags == a[g].flags
  }

  /** A state that differs from a valid one in per-point marks only is valid. */
  lemma MarksValid(s: ModelState, hs: seq<Handle>, t: ModelState)
    requires Valid(s, hs) && SameSkeleton(s, t) && SameLists(s.arena, t.arena)
    ensures Valid(t, hs)
  {
    SkeletonKeeps(s, t, hs);
    MarksWellFormed(s, t);
  }

  lemma MarksWellFormed(s: ModelState, t: ModelState)
    requires WellFormed(s) && SameSkeleton(s, t) && SameLists(s.arena, t.arena)
    ensures WellFormed(t)
  {
    assert t.landmarks == t.(arena := s.arena).landmarks && t.index == t.(arena := s.arena).index;
    assert t.head == t.(arena := s.arena).head;
    forall g | 0 <= g < |t.arena| ensures PointOk(t, t.arena[g]) {
      assert PointOk(s, s.arena[g]);
    }
  }
}
