// Adding points to a Cl3DModel and keeping its ID counter: the four AddPointToModel
// overloads. A new point goes in front of the chain; explicit IDs must be new.

module Lifecycle {
  import opened Types
  import opened MeshState
  import Assoc

  /** AddPointToModel(x, y, z, id): a duplicate ID throws and changes nothing;
      otherwise the new point becomes the head of the chain, the ID map holds it, the
      counter moves past the ID (in unchecked uint arithmetic) and the count grows. */
  function AddPointWithId(s: ModelState, x: Single, y: Single, z: Single, id: u32): (e: Effect<Handle>)
    requires HandleOk(s, s.head)
    ensures id in s.index ==> e == Effect(Err(DuplicateId), s)
    ensures id !in s.index ==> e.out == Ok(|s.arena|) && |e.post.arena| == |s.arena| + 1
  {
    if id in s.index then Effect(Err(DuplicateId), s)
    else
      var h := |s.arena|;
      var p := NewPoint(id, x, y, z).(next := s.head);
      var arena := if s.head.Some? then s.arena[s.head.value := s.arena[s.head.value].(prev := Some(h))] else s.arena;
      Effect(Ok(h), s.(arena := arena + [p], index := s.index[id := h], head := Some(h),
                       nextId := if s.nextId <= id then Inc32(id) else s.nextId,
                       count := Inc32(s.count)))
  }

  /** AddPointToModel(x, y, z): a NaN coordinate throws before anything changes;
      otherwise the point takes the counter's value as its ID, the counter being
      incremented first, so a failing insertion still consumes the ID. */
  function AddPoint(s: ModelState, x: Single, y: Single, z: Single): (e: Effect<Handle>)
    requires HandleOk(s, s.head)
    ensures IsNaN(x) || IsNaN(y) || IsNaN(z) ==> e == Effect(Err(MalformedCoordinate), s)
    ensures !(IsNaN(x) || IsNaN(y) || IsNaN(z)) ==>
      e == AddPointWithId(s.(nextId := Inc32(s.nextId)), x, y, z, s.nextId)
  {
    if IsNaN(x) || IsNaN(y) || IsNaN(z) then Effect(Err(MalformedCoordinate), s)
    else AddPointWithId(s.(nextId := Inc32(s.nextId)), x, y, z, s.nextId)
  }

  /** AddPointToModel(x, y, z, rangeX, rangeY, id): insertion, then the range-image
      placement is set through the returned cursor. */
  function AddPointWithRangeAndId(s: ModelState, x: Single, y: Single, z: Single, rx: i32, ry: i32, id: u32): (e: Effect<Handle>)
    requires HandleOk(s, s.head)
    ensures e.out == AddPointWithId(s, x, y, z, id).out
    ensures e.out.Ok? ==> var t := AddPointWithId(s, x, y, z, id).post;
      e.post == Update(t, e.out.value, t.arena[e.out.value].(rangeX := rx, rangeY := ry))
    ensures e.out.Err? ==> e.post == s
  {
    var e := AddPointWithId(s, x, y, z, id);
    if e.out.Err? then e
    else Effect(e.out, Update(e.post, e.out.value, e.post.arena[e.out.value].(rangeX := rx, rangeY := ry)))
  }

  /** AddPointToModel(x, y, z, rangeX, rangeY): the counter's value as ID, without the
      NaN check of the three-coordinate overload. */
  function AddPointWithRange(s: ModelState, x: Single, y: Single, z: Single, rx: i32, ry: i32): (e: Effect<Handle>)
    requires HandleOk(s, s.head)
    ensures e == AddPointWithRangeAndId(s.(nextId := Inc32(s.nextId)), x, y, z, rx, ry, s.nextId)
  {
    AddPointWithRangeAndId(s.(nextId := Inc32(s.nextId)), x, y, z, rx, ry, s.nextId)
  }

  /** Every ID in use is below the counter, so the counter's value is a fresh ID. */
  ghost predicate IdsBelow(s: ModelState) {
    forall id :: id in s.index ==> id < s.nextId
  }

  /** What a successful insertion leaves behind, field by field. */
  lemma AddPointWithIdPost(s: ModelState, x: Single, y: Single, z: Single, id: u32)
    requires HandleOk(s, s.head) && id !in s.index
    ensures var t, h := AddPointWithId(s, x, y, z, id).post, |s.arena|;
      && t.arena[h] == NewPoint(id, x, y, z).(next := s.head)
      && (s.head.Some? ==> t.arena[s.head.value] == s.arena[s.head.value].(prev := Some(h)))
      && (forall g :: 0 <= g < |s.arena| && Some(g) != s.head ==> t.arena[g] == s.arena[g])
      && t.index == s.index[id := h] && t.head == Some(h)
      && t.landmarks == s.landmarks && t.count == Inc32(s.count)
      && t.nextId == (if s.nextId <= id then (id + 1) % TWO32 else s.nextId)
      && t.version == s.version && t.path == s.path && t.modelType == s.modelType
      && t.expression == s.expression && t.history == s.history && t.changed == s.changed
  {
  }

  /** Adding a point with a new ID keeps the model invariant with the new point in
      front of the chain; the count stays equal to the size of the ID map as long as
      it does not wrap around. */
  lemma AddPointValid(s: ModelState, hs: seq<Handle>, x: Single, y: Single, z: Single, id: u32)
    requires Valid(s, hs) && id !in s.index && |s.index| < TWO32 - 1
    ensures Valid(AddPointWithId(s, x, y, z, id).post, [|s.arena|] + hs)
  {
    var t, h := AddPointWithId(s, x, y, z, id).post, |s.arena|;
    AddPointWithIdPost(s, x, y, z, id);
    assert h !in hs;
    AddPointChain(s, hs, t, h);
    AddPointLive(s, t, h, id, x, y, z);
    AddPointAdjacency(s, t, h);
    assert forall g :: 0 <= g < |s.arena| ==>
      t.arena[g].features == s.arena[g].features && t.arena[g].flags == s.arena[g].flags && t.arena[g].id == s.arena[g].id;
    AddPointRest(s, hs, t, h, id);
  }

  lemma AddPointLive(s: ModelState, t: ModelState, h: Handle, id: u32, x: Single, y: Single, z: Single)
    requires HandleOk(s, s.head) && id !in s.index && h == |s.arena| && t == AddPointWithId(s, x, y, z, id).post
    ensures forall g: Handle :: Live(t, g) <==> g == h || Live(s, g)
  {
    forall g: Handle ensures Live(t, g) <==> g == h || Live(s, g) {
      if g < |s.arena| {
        assert t.arena[g].id == s.arena[g].id;
      }
    }
  }

  lemma AddPointRest(s: ModelState, hs: seq<Handle>, t: ModelState, h: Handle, id: u32)
    requires IndexSound(s) && s.count == |s.index| && |s.index| == |hs| && Assoc.Unique(s.landmarks) && LandmarksLive(s) && PointsShaped(s)
    requires id !in s.index && |s.index| < TWO32 - 1 && h == |s.arena| && |t.arena| == h + 1
    requires t.index == s.index[id := h] && t.count == Inc32(s.count) && t.landmarks == s.landmarks
    requires t.arena[h].id == id && t.arena[h].features == [] && |t.arena[h].flags| == FlagCount
    requires forall g :: 0 <= g < |s.arena| ==>
      t.arena[g].features == s.arena[g].features && t.arena[g].flags == s.arena[g].flags && t.arena[g].id == s.arena[g].id
    requires forall g: Handle :: Live(t, g) <==> g == h || Live(s, g)
    requires ChainIs(t, [h] + hs) && WellFormed(t) && Symmetric(t) && SimpleLists(t) && NeighborsLive(t)
    requires forall g :: g in hs <==> Live(s, g)
    ensures Valid(t, [h] + hs)
  {
    assert |t.index| == |s.index| + 1;
  }

  lemma AddPointChain(s: ModelState, hs: seq<Handle>, t: ModelState, h: Handle)
    requires ChainIs(s, hs) && h == |s.arena| && |t.arena| == h + 1 && t.head == Some(h)
    requires t.arena[h].next == s.head && t.arena[h].prev.None?
    requires s.head.Some? ==> t.arena[s.head.value] == s.arena[s.head.value].(prev := Some(h))
    requires forall g :: 0 <= g < |s.arena| && Some(g) != s.head ==> t.arena[g] == s.arena[g]
    ensures ChainIs(t, [h] + hs)
  {
    var hs' := [h] + hs;
    forall i | 0 <= i < |hs'| - 1 ensures t.arena[hs'[i]].next == Some(hs'[i + 1]) {
      if i > 0 {
        assert t.arena[hs[i - 1]].next == s.arena[hs[i - 1]].next;
      }
    }
    forall i | 0 < i < |hs'| ensures t.arena[hs'[i]].prev == Some(hs'[i - 1]) {
      if i > 1 {
        assert hs[i - 1] != hs[0];
        assert t.arena[hs[i - 1]].prev == s.arena[hs[i - 1]].prev;
      }
    }
    if hs != [] {
      assert t.arena[hs[|hs| - 1]].next == s.arena[hs[|hs| - 1]].next;
    }
  }

  lemma AddPointAdjacency(s: ModelState, t: ModelState, h: Handle)
    requires WellFormed(s) && Symmetric(s) && SimpleLists(s) && NeighborsLive(s)
    requires h == |s.arena| && |t.arena| == h + 1 && t.arena[h].neighbors == []
    requires HandleOk(t, t.arena[h].next) && HandleOk(t, t.arena[h].prev)
    requires t.head.Some? && t.head.value <= h
    requires forall id :: id in t.index ==> t.index[id] <= h
    requires forall i :: 0 <= i < |t.landmarks| ==> HandleOk(t, t.landmarks[i].1)
    requires forall g :: 0 <= g < |s.arena| ==>
      t.arena[g].neighbors == s.arena[g].neighbors && t.arena[g].next == s.arena[g].next
      && (t.arena[g].prev == s.arena[g].prev || t.arena[g].prev == Some(h))
    requires forall g: Handle :: Live(t, g) <==> g == h || Live(s, g)
    ensures WellFormed(t) && Symmetric(t) && SimpleLists(t) && NeighborsLive(t)
  {
    forall g | 0 <= g < |t.arena| ensures PointOk(t, t.arena[g]) {
      if g < h { assert PointOk(s, s.arena[g]); }
    }
    forall a, b | 0 <= a < |t.arena| && 0 <= b < |t.arena|
      ensures b in t.arena[a].neighbors <==> a in t.arena[b].neighbors
    {
      if a < h && b < h {
        assert b in s.arena[a].neighbors <==> a in s.arena[b].neighbors;
      } else if a < h {
        assert PointOk(s, s.arena[a]);
      } else if b < h {
        assert PointOk(s, s.arena[b]);
      }
    }
  }

  /** The counter stays above every ID in use, provided it does not wrap around. */
  lemma AddPointIdsBelow(s: ModelState, x: Single, y: Single, z: Single, id: u32)
    requires HandleOk(s, s.head) && IdsBelow(s) && id < TWO32 - 1
    ensures IdsBelow(AddPointWithId(s, x, y, z, id).post)
  {
  }

  /** Automatically numbered points never collide: while the counter is above every ID
      in use and has not reached the top of the uint range, AddPointToModel(x, y, z)
      succeeds for numeric coordinates, numbers the point with the old counter value and
      keeps the counter above every ID. */
  lemma AutoIdFresh(s: ModelState, x: Single, y: Single, z: Single)
    requires HandleOk(s, s.head) && IdsBelow(s) && s.nextId < TWO32 - 1
    requires !IsNaN(x) && !IsNaN(y) && !IsNaN(z)
    ensures var e := AddPoint(s, x, y, z);
      && e.out == Ok(|s.arena|)
      && e.post.arena[|s.arena|].id == s.nextId
      && e.post.nextId == s.nextId + 1
      && IdsBelow(e.post)
  {
    assert s.nextId !in s.index;
  }
}
