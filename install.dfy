// LoadInternalModelType after the reading: the points are created and chained in
// file order, their neighbour lists are resolved by ID with AddNeighbor, and the
// labels are bound to the points that carry their IDs. LoadModel sets the path and
// the type before.

module Loading {
  import opened Types
  import opened MeshState
  import Assoc
  import Cursors
  import Codec
  import Paths

  // ----- the points loop --------------------------------------------------------

  /** The object LoadPoint creates for a saved point: the constructor's defaults (no
      normal, eight cleared flags), the saved fields and features, no neighbour yet,
      and the links the points loop gives it. */
  function Created(p: Codec.PointFile, prev: Option<Handle>, next: Option<Handle>): (r: PointRec)
    ensures r.id == p.id && r.x == p.x && r.y == p.y && r.z == p.z
    ensures r.rangeX == p.rangeX && r.rangeY == p.rangeY && r.u == p.u && r.v == p.v
    ensures r.color == p.color && r.visited == p.visited && r.features == p.features
    ensures r.normal.None? && |r.flags| == FlagCount && forall i :: 0 <= i < FlagCount ==> !r.flags[i]
    ensures r.neighbors == [] && r.prev == prev && r.next == next
  {
    PointRec(p.id, p.x, p.y, p.z, p.rangeX, p.rangeY, p.u, p.v, None, p.color, p.visited,
             seq(FlagCount, _ => false), p.features, [], next, prev)
  }

  /** The points the loop creates, placed from base on, each linked to the one created
      before it and the one created after it. */
  function CreatedPoints(base: nat, ps: seq<Codec.PointFile>): (r: seq<PointRec>)
    ensures |r| == |ps|
    ensures forall k :: 0 <= k < |ps| ==>
      && r[k].neighbors == []
      && (r[k].next.Some? ==> r[k].next.value < base + |ps|)
      && (r[k].prev.Some? ==> r[k].prev.value < base + |ps|)
  {
    seq(|ps|, k requires 0 <= k < |ps| =>
      Created(ps[k], if k == 0 then None else Some(base + k - 1),
                     if k == |ps| - 1 then None else Some(base + k + 1)))
  }

  /** The new ID map, filled with Dictionary.Add in file order: the k-th saved ID maps
      to the k-th created object, and no other ID is in the map. */
  function Registered(base: nat, ids: seq<u32>): (m: map<u32, Handle>)
    requires NoDup(ids)
    ensures |m| == |ids|
    ensures forall k :: 0 <= k < |ids| ==> ids[k] in m && m[ids[k]] == base + k
    ensures forall id :: id in m ==> id in ids
    decreases |ids|
  {
    if ids == [] then map[]
    else
      var rest := ids[1..];
      assert NoDup(rest) by {
        assert forall k :: 0 <= k < |rest| ==> rest[k] == ids[k + 1];
      }
      assert ids[0] !in rest;
      var m := Registered(base + 1, rest);
      assert forall k :: 1 <= k < |ids| ==> ids[k] == rest[k - 1];
      m[ids[0] := base]
  }

  /** Every handle in the new ID map is the object created for its ID. */
  lemma RegisteredInverse(base: nat, ids: seq<u32>, id: u32)
    requires NoDup(ids) && id in Registered(base, ids)
    ensures base <= Registered(base, ids)[id] < base + |ids| && ids[Registered(base, ids)[id] - base] == id
  {
    var k :| 0 <= k < |ids| && ids[k] == id;
  }

  /** The model once the points loop has run, as written: the fields read from the file
      are set (the history appended to the one already held, the expression kept when
      the file has none), the labels and the ID map start anew, and the created points
      are chained from base on. Without points the head keeps the object it held. */
  function StagedAsWritten(s: ModelState, d: Codec.Decoded): (t: ModelState)
    requires NoDup(Codec.IdsOf(d.points))
    ensures t.head == (if d.points == [] then s.head else Some(|s.arena|))
  {
    var base := |s.arena|;
    s.(version := d.version, modelType := d.modelType, nextId := d.nextId, count := d.count,
       expression := if d.expression.Some? then d.expression.value else s.expression,
       history := s.history + d.history, landmarks := [], index := Registered(base, Codec.IdsOf(d.points)),
       arena := s.arena + CreatedPoints(base, d.points),
       head := if d.points == [] then s.head else Some(base))
  }

  /** The same with the head cleared when the file holds no point. */
  function Staged(s: ModelState, d: Codec.Decoded): (t: ModelState)
    requires NoDup(Codec.IdsOf(d.points))
    ensures t.head == (if d.points == [] then None else Some(|s.arena|))
  {
    StagedAsWritten(s, d).(head := if d.points == [] then None else Some(|s.arena|))
  }

  /** The staged model refers to objects of its arena only. */
  lemma StagedWellFormed(s: ModelState, d: Codec.Decoded)
    requires WellFormed(s) && NoDup(Codec.IdsOf(d.points))
    ensures WellFormed(StagedAsWritten(s, d)) && WellFormed(Staged(s, d))
  {
    var t := StagedAsWritten(s, d);
    forall g | 0 <= g < |t.arena| ensures PointOk(t, t.arena[g]) {
      if g < |s.arena| {
        assert PointOk(s, s.arena[g]);
        assert t.arena[g] == s.arena[g];
      }
    }
  }

  // ----- the neighbour loops ----------------------------------------------------

  /** AddNeighbor between two objects of the arena succeeds and edits neighbour lists
      only, keeping every reference inside the arena. */
  lemma AddNeighborFrame(s: ModelState, a: Handle, b: Handle)
    requires WellFormed(s) && a < |s.arena| && b < |s.arena|
    ensures var r := Cursors.AddNeighbor(s, Some(a), Some(b));
      r.Ok? && WellFormed(r.value) && Cursors.SameExceptNeighbors(s, r.value)
  {
    var r := Cursors.AddNeighbor(s, Some(a), Some(b));
    if r.value != s {
      assert a != b;
      Cursors.LinkLists(s, a, b);
      var t := r.value;
      forall g | 0 <= g < |t.arena| ensures PointOk(t, t.arena[g]) {
        assert PointOk(s, s.arena[g]);
      }
    }
  }

  /** Editing neighbour lists leaves every other field of the model as it was. */
  lemma NeighborsOnly(s: ModelState, t: ModelState)
    requires Cursors.SameExceptNeighbors(s, t)
    ensures t.index == s.index && t.head == s.head && t.landmarks == s.landmarks && t.count == s.count
    ensures forall g :: 0 <= g < |s.arena| ==> t.arena[g].id == s.arena[g].id
  {
    assert t.index == t.(arena := s.arena).index && t.head == t.(arena := s.arena).head;
    assert t.landmarks == t.(arena := s.arena).landmarks && t.count == t.(arena := s.arena).count;
  }

  /** The inner loop for the point a: each listed ID is looked up and added as a
      neighbour; an ID that no loaded point carries throws. */
  function ResolveList(s: ModelState, a: Handle, ids: seq<u32>): (r: Result<ModelState>)
    requires WellFormed(s) && a < |s.arena|
    ensures r.Err? ==> r.error == NotFound
    ensures r.Ok? ==> WellFormed(r.value) && Cursors.SameExceptNeighbors(s, r.value)
    decreases |ids|
  {
    if ids == [] then Ok(s)
    else if ids[0] !in s.index then Err(NotFound)
    else
      AddNeighborFrame(s, a, s.index[ids[0]]);
      var t := Cursors.AddNeighbor(s, Some(a), Some(s.index[ids[0]])).value;
      NeighborsOnly(s, t);
      ResolveList(t, a, ids[1..])
  }

  /** The outer loop, over the loaded points in file order from the k-th on. */
  function ResolveFrom(s: ModelState, base: nat, ps: seq<Codec.PointFile>, k: nat): (r: Result<ModelState>)
    requires WellFormed(s) && base + |ps| <= |s.arena| && k <= |ps|
    ensures r.Err? ==> r.error == NotFound
    ensures r.Ok? ==> WellFormed(r.value) && Cursors.SameExceptNeighbors(s, r.value)
    decreases |ps| - k
  {
    if k == |ps| then Ok(s)
    else
      var t :- ResolveList(s, base + k, ps[k].neighbors);
      NeighborsOnly(s, t);
      ResolveFrom(t, base, ps, k + 1)
  }

  /** One round of the outer loop: the inner loop for the k-th point, then the rest. */
  lemma ResolveFromNext(s: ModelState, base: nat, ps: seq<Codec.PointFile>, k: nat)
    requires WellFormed(s) && base + |ps| <= |s.arena| && k < |ps| && ResolveFrom(s, base, ps, k).Ok?
    ensures var t := ResolveList(s, base + k, ps[k].neighbors);
      && t.Ok? && WellFormed(t.value) && base + |ps| <= |t.value.arena|
      && ResolveFrom(t.value, base, ps, k + 1) == ResolveFrom(s, base, ps, k)
  {
  }

  /** The inner loop throws exactly when one of the listed IDs is carried by no point. */
  lemma {:induction false} ResolveListOk(s: ModelState, a: Handle, ids: seq<u32>)
    requires WellFormed(s) && a < |s.arena|
    ensures ResolveList(s, a, ids).Ok? <==> forall i :: 0 <= i < |ids| ==> ids[i] in s.index
    decreases |ids|
  {
    if ids != [] && ids[0] in s.index {
      AddNeighborFrame(s, a, s.index[ids[0]]);
      var t := Cursors.AddNeighbor(s, Some(a), Some(s.index[ids[0]])).value;
      NeighborsOnly(s, t);
      ResolveListOk(t, a, ids[1..]);
      assert forall i :: 1 <= i < |ids| ==> ids[i] == ids[1..][i - 1];
    }
  }

  /** The outer loop throws exactly when some loaded point lists an ID no point carries. */
  lemma {:induction false} ResolveFromOk(s: ModelState, base: nat, ps: seq<Codec.PointFile>, k: nat)
    requires WellFormed(s) && base + |ps| <= |s.arena| && k <= |ps|
    ensures ResolveFrom(s, base, ps, k).Ok? <==>
      forall j, i :: k <= j < |ps| && 0 <= i < |ps[j].neighbors| ==> ps[j].neighbors[i] in s.index
    decreases |ps| - k
  {
    if k < |ps| {
      ResolveListOk(s, base + k, ps[k].neighbors);
      var r := ResolveList(s, base + k, ps[k].neighbors);
      if r.Ok? {
        NeighborsOnly(s, r.value);
        ResolveFromOk(r.value, base, ps, k + 1);
      }
    }
  }

  /** The label loop over the labels read, in order, into a new label map: a label whose
      ID no loaded point carries throws, and so would a repeated label. */
  function BindLabels(s: ModelState, ls: Assoc.Dict<string, u32>): (r: Result<Assoc.Dict<string, Option<Handle>>>)
    ensures r.Ok? ==> |r.value| == |ls| && forall i :: 0 <= i < |ls| ==>
      ls[i].1 in s.index && r.value[i] == (ls[i].0, Some(s.index[ls[i].1]))
    ensures Assoc.Unique(ls) ==> (r.Ok? <==> forall i :: 0 <= i < |ls| ==> ls[i].1 in s.index)
    ensures r.Err? ==> r.error == NotFound || r.error == DuplicateKey
    decreases |ls|
  {
    if ls == [] then Ok([])
    else
      var init := ls[..|ls| - 1];
      var last := ls[|ls| - 1];
      assert Assoc.Unique(ls) ==> Assoc.Unique(init);
      var acc :- BindLabels(s, init);
      if last.1 !in s.index then Err(NotFound)
      else
        assert Assoc.Unique(ls) ==> !Assoc.HasKey(acc, last.0);
        Assoc.Add(acc, last.0, Some(s.index[last.1]))
  }

  // ----- the whole load ---------------------------------------------------------

  /** The points loop, the neighbour loop and the label loop, as written. */
  function InstallAsWritten(s: ModelState, d: Codec.Decoded): (r: Result<ModelState>)
    requires WellFormed(s) && Codec.WellDecoded(d)
  {
    var t := StagedAsWritten(s, d);
    StagedWellFormed(s, d);
    var u :- ResolveFrom(t, |s.arena|, d.points, 0);
    NeighborsOnly(t, u);
    var lm :- BindLabels(u, d.labels);
    Ok(u.(landmarks := lm))
  }

  /** The same, the head cleared when the file holds no point. */
  function Install(s: ModelState, d: Codec.Decoded): (r: Result<ModelState>)
    requires WellFormed(s) && Codec.WellDecoded(d)
  {
    var t := Staged(s, d);
    StagedWellFormed(s, d);
    var u :- ResolveFrom(t, |s.arena|, d.points, 0);
    NeighborsOnly(t, u);
    var lm :- BindLabels(u, d.labels);
    Ok(u.(landmarks := lm))
  }

  /** LoadModel for the internal format: the path is recorded and the type set to the
      extension before LoadInternalModelType reads the file; the version the header
      does not name is the one the model held. */
  function LoadInternal(s: ModelState, path: string, ts: seq<Codec.Token>): (r: Result<ModelState>)
    requires WellFormed(s)
  {
    var d :- Codec.Decode(ts, s.version);
    Install(s.(path := path, modelType := Paths.Extension(path)), d)
  }

  function LoadInternalAsWritten(s: ModelState, path: string, ts: seq<Codec.Token>): (r: Result<ModelState>)
    requires WellFormed(s)
  {
    var d :- Codec.Decode(ts, s.version);
    InstallAsWritten(s.(path := path, modelType := Paths.Extension(path)), d)
  }

  // ----- the staged model -------------------------------------------------------

  /** The handles base, base + 1, ..., base + n - 1. */
  function Span(base: nat, n: nat): (r: seq<Handle>)
    ensures |r| == n && forall k :: 0 <= k < n ==> r[k] == base + k
    ensures forall h :: h in r <==> base <= h < base + n
  {
    var r := seq(n, k requires 0 <= k < n => base + k);
    forall h | base <= h < base + n ensures h in r {
      assert r[h - base] == h;
    }
    r
  }

  /** After the points loop the created points form the chain, in file order. */
  lemma StagedChain(s: ModelState, d: Codec.Decoded)
    requires NoDup(Codec.IdsOf(d.points))
    ensures ChainIs(Staged(s, d), Span(|s.arena|, |d.points|))
  {
    CreatedChain(s.arena, d.points);
  }

  lemma CreatedChain(a: seq<PointRec>, ps: seq<Codec.PointFile>)
    ensures Chain(a + CreatedPoints(|a|, ps), Span(|a|, |ps|))
  {
    var c, base := a + CreatedPoints(|a|, ps), |a|;
    forall h | base <= h < base + |ps|
      ensures c[h].next == (if h == base + |ps| - 1 then None else Some(h + 1))
      ensures c[h].prev == (if h == base then None else Some(h - 1))
    {
      CreatedPointAt(a, ps, h - base);
    }
    SpanChain(c, base, |ps|);
  }

  /** Objects base, base + 1, ... linked each to the next form a chain. */
  lemma SpanChain(c: seq<PointRec>, base: nat, n: nat)
    requires base + n <= |c|
    requires forall h :: base <= h < base + n ==> c[h].next == (if h == base + n - 1 then None else Some(h + 1))
    requires forall h :: base <= h < base + n ==> c[h].prev == (if h == base then None else Some(h - 1))
    ensures Chain(c, Span(base, n))
  {
    var hs := Span(base, n);
    assert NoDup(hs);
    forall i | 0 <= i < |hs| - 1 ensures c[hs[i]].next == Some(hs[i + 1]) {
      assert hs[i] == base + i && hs[i + 1] == base + i + 1;
    }
    forall i | 0 < i < |hs| ensures c[hs[i]].prev == Some(hs[i - 1]) {
      assert hs[i] == base + i && hs[i - 1] == base + i - 1;
    }
    if n > 0 {
      assert hs[0] == base && hs[n - 1] == base + n - 1;
    }
  }

  /** After the points loop the points of the model are exactly the created ones, the ID
      map is sound, and the count read from the file counts them. */
  lemma StagedIndex(s: ModelState, d: Codec.Decoded)
    requires Codec.WellDecoded(d)
    ensures var t := Staged(s, d);
      && IndexSound(t)
      && (forall h :: h in Span(|s.arena|, |d.points|) <==> Live(t, h))
      && t.count == |t.index| == |d.points|
  {
    CreatedIndex(s.arena, d.points);
  }

  lemma CreatedIndex(a: seq<PointRec>, ps: seq<Codec.PointFile>)
    requires NoDup(Codec.IdsOf(ps))
    ensures var c, m := a + CreatedPoints(|a|, ps), Registered(|a|, Codec.IdsOf(ps));
      && (forall id :: id in m ==> m[id] < |c| && c[m[id]].id == id)
      && (forall h: Handle :: h in Span(|a|, |ps|) <==> h < |c| && c[h].id in m && m[c[h].id] == h)
  {
    forall id | id in Registered(|a|, Codec.IdsOf(ps)) ensures var c, m := a + CreatedPoints(|a|, ps), Registered(|a|, Codec.IdsOf(ps));
      m[id] < |c| && c[m[id]].id == id {
      CreatedIndexAt(a, ps, id);
    }
    forall h: Handle ensures var c, m := a + CreatedPoints(|a|, ps), Registered(|a|, Codec.IdsOf(ps));
      h in Span(|a|, |ps|) <==> h < |c| && c[h].id in m && m[c[h].id] == h {
      CreatedLiveAt(a, ps, h);
    }
  }

  lemma CreatedIndexAt(a: seq<PointRec>, ps: seq<Codec.PointFile>, id: u32)
    requires NoDup(Codec.IdsOf(ps)) && id in Registered(|a|, Codec.IdsOf(ps))
    ensures var c, m := a + CreatedPoints(|a|, ps), Registered(|a|, Codec.IdsOf(ps));
      m[id] < |c| && c[m[id]].id == id
  {
    RegisteredInverse(|a|, Codec.IdsOf(ps), id);
    CreatedIds(a, ps);
  }

  lemma CreatedLiveAt(a: seq<PointRec>, ps: seq<Codec.PointFile>, h: Handle)
    requires NoDup(Codec.IdsOf(ps))
    ensures var c, m := a + CreatedPoints(|a|, ps), Registered(|a|, Codec.IdsOf(ps));
      h in Span(|a|, |ps|) <==> h < |c| && c[h].id in m && m[c[h].id] == h
  {
    var c, ids := a + CreatedPoints(|a|, ps), Codec.IdsOf(ps);
    CreatedIds(a, ps);
    if h < |c| && c[h].id in Registered(|a|, ids) {
      RegisteredInverse(|a|, ids, c[h].id);
    }
    if |a| <= h < |a| + |ps| {
      assert c[h].id == ids[h - |a|];
    }
  }

  /** The k-th created object carries the k-th saved ID. */
  lemma CreatedIds(a: seq<PointRec>, ps: seq<Codec.PointFile>)
    ensures var c := a + CreatedPoints(|a|, ps);
      |c| == |a| + |ps| && forall k :: 0 <= k < |ps| ==> c[|a| + k].id == Codec.IdsOf(ps)[k]
  {
    var c := a + CreatedPoints(|a|, ps);
    forall k | 0 <= k < |ps| ensures c[|a| + k].id == Codec.IdsOf(ps)[k] {
      assert c[|a| + k] == CreatedPoints(|a|, ps)[k];
    }
  }

  /** After the points loop the created points have no neighbours, and the objects
      already in the arena keep the lists they had. */
  lemma StagedLists(s: ModelState, d: Codec.Decoded)
    requires WellFormed(s) && Symmetric(s) && SimpleLists(s) && Codec.WellDecoded(d)
    ensures var t := Staged(s, d); Symmetric(t) && SimpleLists(t)
  {
    assert forall g :: 0 <= g < |s.arena| ==> PointOk(s, s.arena[g]);
    CreatedLists(s.arena, d.points);
  }

  /** The points of the staged model have no neighbours, distinct feature names and
      eight flags. */
  lemma StagedShape(s: ModelState, d: Codec.Decoded)
    requires Codec.WellDecoded(d)
    ensures var t := Staged(s, d); NeighborsLive(t) && PointsShaped(t)
  {
    var t := Staged(s, d);
    StagedIndex(s, d);
    CreatedShape(s.arena, d.points);
    assert t.arena == s.arena + CreatedPoints(|s.arena|, d.points);
  }

  lemma CreatedShape(a: seq<PointRec>, ps: seq<Codec.PointFile>)
    requires forall k :: 0 <= k < |ps| ==> Assoc.Unique(ps[k].features)
    ensures var c := a + CreatedPoints(|a|, ps);
      forall h :: |a| <= h < |c| ==>
        c[h].neighbors == [] && Assoc.Unique(c[h].features) && |c[h].flags| == FlagCount
  {
    var c := a + CreatedPoints(|a|, ps);
    forall h | |a| <= h < |c| ensures c[h].neighbors == [] && Assoc.Unique(c[h].features) && |c[h].flags| == FlagCount {
      CreatedAt(a, ps, h - |a|);
    }
  }

  /** The k-th created object. */
  lemma CreatedAt(a: seq<PointRec>, ps: seq<Codec.PointFile>, k: nat)
    requires k < |ps|
    ensures var p := (a + CreatedPoints(|a|, ps))[|a| + k];
      && p.neighbors == [] && p.features == ps[k].features && |p.flags| == FlagCount
  {
    assert (a + CreatedPoints(|a|, ps))[|a| + k] == CreatedPoints(|a|, ps)[k];
  }

  /** Appending objects without neighbours keeps adjacency symmetric and simple when
      the arena before lists its own objects only. */
  lemma CreatedLists(a: seq<PointRec>, ps: seq<Codec.PointFile>)
    requires SymmetricLists(a)
    requires forall x :: 0 <= x < |a| ==> NoDup(a[x].neighbors) && x !in a[x].neighbors
    requires forall x, j :: 0 <= x < |a| && 0 <= j < |a[x].neighbors| ==> a[x].neighbors[j] < |a|
    ensures var c := a + CreatedPoints(|a|, ps);
      && SymmetricLists(c)
      && forall x :: 0 <= x < |c| ==> NoDup(c[x].neighbors) && x !in c[x].neighbors
  {
    var c := a + CreatedPoints(|a|, ps);
    assert forall g :: 0 <= g < |a| ==> c[g] == a[g];
    forall g | |a| <= g < |c| ensures c[g].neighbors == [] {
      CreatedAt(a, ps, g - |a|);
    }
    forall x, y | 0 <= x < |c| && 0 <= y < |c| ensures y in c[x].neighbors <==> x in c[y].neighbors {
      if x < |a| && y < |a| {
        assert y in a[x].neighbors <==> x in a[y].neighbors;
      }
    }
  }

  /** The staged model is valid, its chain the created points. */
  lemma StagedValid(s: ModelState, hs: seq<Handle>, d: Codec.Decoded)
    requires Valid(s, hs) && Codec.WellDecoded(d)
    ensures Valid(Staged(s, d), Span(|s.arena|, |d.points|))
  {
    StagedWellFormed(s, d);
    StagedChain(s, d);
    StagedIndex(s, d);
    StagedLists(s, d);
    StagedShape(s, d);
  }

  // ----- the neighbour loops on a valid model -----------------------------------

  /** x and y are the two ends of a link the inner loop for a adds when it reads the
      IDs ids: one of them is a, and the other a point of the model whose ID is listed. */
  ghost predicate Joins(s: ModelState, a: Handle, ids: seq<u32>, x: Handle, y: Handle)
    requires x < |s.arena| && y < |s.arena|
  {
    x != y && ((x == a && Live(s, y) && s.arena[y].id in ids) || (y == a && Live(s, x) && s.arena[x].id in ids))
  }

  /** AddNeighbor between two points of the model links exactly the two of them, both
      ways, unless they are the same point. */
  lemma AddNeighborLinks(s: ModelState, a: Handle, b: Handle)
    requires WellFormed(s) && IndexSound(s) && Symmetric(s) && NeighborsLive(s) && Live(s, a) && Live(s, b)
    ensures var t := Cursors.AddNeighbor(s, Some(a), Some(b)).value;
      forall x, y :: 0 <= x < |s.arena| && 0 <= y < |s.arena| ==>
        (y in t.arena[x].neighbors <==> y in s.arena[x].neighbors || (x != y && ((x == a && y == b) || (x == b && y == a))))
  {
    AddNeighborShape(s, a, b);
    if a != b && b !in s.arena[a].neighbors {
      Cursors.LinkLists(s, a, b);
      NewLinks(s.arena, Cursors.Link(s, a, b).arena, a, b);
    } else {
      KnownLinks(s.arena, a, b);
    }
  }

  /** AddNeighbor between two points of the model leaves the model as it is when the
      points are the same or already linked, and links them otherwise. */
  lemma AddNeighborShape(s: ModelState, a: Handle, b: Handle)
    requires WellFormed(s) && IndexSound(s) && Symmetric(s) && NeighborsLive(s) && Live(s, a) && Live(s, b)
    ensures var t := Cursors.AddNeighbor(s, Some(a), Some(b)).value;
      if a != b && b !in s.arena[a].neighbors then t == Cursors.Link(s, a, b)
      else t == s && (a == b || a in s.arena[b].neighbors)
  {
    var ns := s.arena[a].neighbors;
    if s.arena[a].id == s.arena[b].id {
      assert a == b;
    } else if Cursors.IsPointInNeighbors(s, Some(a), s.arena[b].id) == Ok(true) {
      var j :| 0 <= j < |ns| && s.arena[ns[j]].id == s.arena[b].id;
      assert Live(s, ns[j]);
      assert b in ns && a in s.arena[b].neighbors;
    } else {
      assert a != b;
    }
  }

  /** Adding a link that is already there, or one from a point to itself, changes no
      list. */
  lemma KnownLinks(c: seq<PointRec>, a: Handle, b: Handle)
    requires a < |c| && b < |c|
    requires a == b || (b in c[a].neighbors && a in c[b].neighbors)
    ensures forall x, y :: 0 <= x < |c| && 0 <= y < |c| ==>
      (y in c[x].neighbors <==> y in c[x].neighbors || (x != y && ((x == a && y == b) || (x == b && y == a))))
  {
  }

  /** Appending b to a's list and a to b's list adds exactly the link between them. */
  lemma NewLinks(c: seq<PointRec>, d: seq<PointRec>, a: Handle, b: Handle)
    requires a < |c| && b < |c| && a != b && |d| == |c|
    requires d[a].neighbors == c[a].neighbors + [b] && d[b].neighbors == c[b].neighbors + [a]
    requires forall g :: 0 <= g < |c| && g != a && g != b ==> d[g] == c[g]
    ensures forall x, y :: 0 <= x < |c| && 0 <= y < |c| ==>
      (y in d[x].neighbors <==> y in c[x].neighbors || (x != y && ((x == a && y == b) || (x == b && y == a))))
  {
  }

  /** What the neighbour loops rely on and keep: references inside the arena, a sound
      ID map, and symmetric, simple adjacency among the points of the model. */
  ghost predicate LinkReady(s: ModelState) {
    WellFormed(s) && IndexSound(s) && Symmetric(s) && SimpleLists(s) && NeighborsLive(s)
  }

  lemma AddNeighborReady(s: ModelState, a: Handle, b: Handle)
    requires LinkReady(s) && Live(s, a) && Live(s, b)
    ensures LinkReady(Cursors.AddNeighbor(s, Some(a), Some(b)).value)
  {
    var t := Cursors.AddNeighbor(s, Some(a), Some(b)).value;
    var ns := s.arena[a].neighbors;
    if s.arena[a].id == s.arena[b].id {
    } else if Cursors.IsPointInNeighbors(s, Some(a), s.arena[b].id) == Ok(true) {
    } else {
      assert b !in ns;
      Cursors.LinkSimple(s, a, b);
      Cursors.LinkLists(s, a, b);
      assert t == Cursors.Link(s, a, b);
      Cursors.LinkNeighborsLive(s, a, b);
      NeighborsOnly(s, t);
    }
  }


  /** The inner loop keeps what the neighbour loops rely on. */
  lemma {:induction false} ResolveListReady(s: ModelState, a: Handle, ids: seq<u32>)
    requires LinkReady(s) && Live(s, a) && ResolveList(s, a, ids).Ok?
    ensures LinkReady(ResolveList(s, a, ids).value)
    decreases |ids|
  {
    if ids != [] {
      var b := s.index[ids[0]];
      AddNeighborReady(s, a, b);
      var t := Cursors.AddNeighbor(s, Some(a), Some(b)).value;
      AddNeighborFrame(s, a, b);
      NeighborsOnly(s, t);
      ResolveListReady(t, a, ids[1..]);
    }
  }

  /** So does the outer loop, over loaded points that are points of the model. */
  lemma {:induction false} ResolveFromReady(s: ModelState, base: nat, ps: seq<Codec.PointFile>, k: nat)
    requires RoundReady(s, base, ps, k)
    requires ResolveFrom(s, base, ps, k).Ok?
    ensures LinkReady(ResolveFrom(s, base, ps, k).value)
    decreases |ps| - k
  {
    if k < |ps| {
      var t := ReadyRound(s, base, ps, k);
      ResolveFromReady(t, base, ps, k + 1);
    }
  }

  /** One round of the outer loop over a model ready for it: the inner loop for the k-th
      point succeeds and keeps the model ready and the remaining points in it; the rest
      of the loop then produces the same result. */
  lemma FromRound(s: ModelState, base: nat, ps: seq<Codec.PointFile>, k: nat) returns (t: ModelState)
    requires LinkReady(s) && base + |ps| <= |s.arena| && k < |ps|
    requires forall h: Handle :: base + k <= h < base + |ps| ==> Live(s, h)
    requires ResolveFrom(s, base, ps, k).Ok?
    ensures Live(s, base + k) && ResolveList(s, base + k, ps[k].neighbors) == Ok(t)
    ensures LinkReady(t) && Cursors.SameExceptNeighbors(s, t)
    ensures forall h: Handle :: base + k + 1 <= h < base + |ps| ==> Live(t, h)
    ensures ResolveFrom(t, base, ps, k + 1) == ResolveFrom(s, base, ps, k)
  {
    assert Live(s, base + k);
    ResolveFromNext(s, base, ps, k);
    ResolveListReady(s, base + k, ps[k].neighbors);
    t := ResolveList(s, base + k, ps[k].neighbors).value;
    LiveKept(s, t, base + k + 1, base + |ps|);
  }

  /** FromRound, stated on the bundled precondition of the rounds. */
  lemma ReadyRound(s: ModelState, base: nat, ps: seq<Codec.PointFile>, k: nat) returns (t: ModelState)
    requires RoundReady(s, base, ps, k) && k < |ps| && ResolveFrom(s, base, ps, k).Ok?
    ensures RoundReady(t, base, ps, k + 1) && ResolveFrom(t, base, ps, k + 1) == ResolveFrom(s, base, ps, k)
  {
    t := FromRound(s, base, ps, k);
  }

  /** Editing neighbour lists keeps the points of the model in it. */
  lemma LiveKept(s: ModelState, t: ModelState, lo: nat, hi: nat)
    requires Cursors.SameExceptNeighbors(s, t)
    requires forall h: Handle :: lo <= h < hi ==> Live(s, h)
    ensures forall h: Handle :: lo <= h < hi ==> Live(t, h)
  {
    NeighborsOnly(s, t);
    forall h: Handle | lo <= h < hi ensures Live(t, h) {
      assert Live(s, h);
    }
  }

  /** The inner loop for a point of the model adds exactly the links to the points
      whose IDs it lists: y is listed by x afterwards exactly when it was before or the
      loop joins the two. */
  lemma {:induction false} ResolveListLinks(s: ModelState, a: Handle, ids: seq<u32>, r: ModelState, x: Handle, y: Handle)
    requires LinkReady(s) && Live(s, a) && ResolveList(s, a, ids) == Ok(r) && x < |s.arena| && y < |s.arena|
    ensures y in r.arena[x].neighbors <==> y in s.arena[x].neighbors || Joins(s, a, ids, x, y)
    decreases |ids|
  {
    if ids != [] {
      var b := s.index[ids[0]];
      AddNeighborReady(s, a, b);
      AddNeighborLinks(s, a, b);
      var t := Cursors.AddNeighbor(s, Some(a), Some(b)).value;
      AddNeighborFrame(s, a, b);
      NeighborsOnly(s, t);
      ResolveListLinks(t, a, ids[1..], r, x, y);
      JoinsStep(s, t, a, ids, b, x, y);
      LinksStep(s, t, r, a, ids, b, x, y);
    }
  }

  lemma LinksStep(s: ModelState, t: ModelState, r: ModelState, a: Handle, ids: seq<u32>, b: Handle, x: Handle, y: Handle)
    requires ids != [] && x < |s.arena| && y < |s.arena| && |t.arena| == |s.arena| && |r.arena| == |s.arena|
    requires y in t.arena[x].neighbors <==> y in s.arena[x].neighbors || (x != y && ((x == a && y == b) || (x == b && y == a)))
    requires y in r.arena[x].neighbors <==> y in t.arena[x].neighbors || Joins(t, a, ids[1..], x, y)
    requires Joins(s, a, ids, x, y) <==> (x != y && ((x == a && y == b) || (x == b && y == a))) || Joins(t, a, ids[1..], x, y)
    ensures y in r.arena[x].neighbors <==> y in s.arena[x].neighbors || Joins(s, a, ids, x, y)
  {
  }

  /** Reading the first ID adds the link to b, the point carrying it; the rest add the
      others. */
  lemma JoinsStep(s: ModelState, t: ModelState, a: Handle, ids: seq<u32>, b: Handle, x: Handle, y: Handle)
    requires IndexSound(s) && ids != [] && ids[0] in s.index && b == s.index[ids[0]]
    requires Cursors.SameExceptNeighbors(s, t) && x < |s.arena| && y < |s.arena|
    ensures Joins(s, a, ids, x, y) <==>
      (x != y && ((x == a && y == b) || (x == b && y == a))) || Joins(t, a, ids[1..], x, y)
  {
    NeighborsOnly(s, t);
    assert Live(t, x) == Live(s, x) && Live(t, y) == Live(s, y);
    assert forall h: Handle :: Live(s, h) && s.arena[h].id == ids[0] ==> h == b;
    assert forall i :: i in ids <==> i == ids[0] || i in ids[1..];
  }

  /** x and y are the two ends of a link the outer loop adds from the k-th loaded point on. */
  ghost predicate JoinsFrom(s: ModelState, base: nat, ps: seq<Codec.PointFile>, k: nat, x: Handle, y: Handle)
    requires x < |s.arena| && y < |s.arena|
  {
    exists j :: k <= j < |ps| && Joins(s, base + j, ps[j].neighbors, x, y)
  }

  /** What each round of the outer loop needs: a model ready for the neighbour loops
      that still holds the remaining loaded points. */
  ghost predicate RoundReady(s: ModelState, base: nat, ps: seq<Codec.PointFile>, k: nat) {
    && LinkReady(s) && base + |ps| <= |s.arena| && k <= |ps|
    && forall h: Handle :: base + k <= h < base + |ps| ==> Live(s, h)
  }

  /** The outer loop from the k-th loaded point adds exactly the links its inner loops add. */
  lemma {:induction false} ResolveFromLinks(s: ModelState, base: nat, ps: seq<Codec.PointFile>, k: nat, r: ModelState, x: Handle, y: Handle)
    requires RoundReady(s, base, ps, k)
    requires ResolveFrom(s, base, ps, k) == Ok(r) && x < |s.arena| && y < |s.arena|
    ensures y in r.arena[x].neighbors <==> y in s.arena[x].neighbors || JoinsFrom(s, base, ps, k, x, y)
    decreases |ps| - k
  {
    if k < |ps| {
      var t := LinksRound(s, base, ps, k, r, x, y);
      ResolveFromLinks(t, base, ps, k + 1, r, x, y);
    }
  }

  /** One round of the outer loop, seen from the links: the model it leaves is ready for
      the next round, and the links of the whole loop follow from those of the rest. */
  lemma LinksRound(s: ModelState, base: nat, ps: seq<Codec.PointFile>, k: nat, r: ModelState, x: Handle, y: Handle)
    returns (t: ModelState)
    requires RoundReady(s, base, ps, k) && k < |ps|
    requires ResolveFrom(s, base, ps, k) == Ok(r) && x < |s.arena| && y < |s.arena|
    ensures RoundReady(t, base, ps, k + 1) && ResolveFrom(t, base, ps, k + 1) == Ok(r)
    ensures |t.arena| == |s.arena| && |r.arena| == |s.arena|
    ensures (y in r.arena[x].neighbors <==> y in t.arena[x].neighbors || JoinsFrom(t, base, ps, k + 1, x, y))
      ==> (y in r.arena[x].neighbors <==> y in s.arena[x].neighbors || JoinsFrom(s, base, ps, k, x, y))
  {
    t := FromRound(s, base, ps, k);
    RoundListLinks(s, base, ps, k, t, x, y);
    if y in r.arena[x].neighbors <==> y in t.arena[x].neighbors || JoinsFrom(t, base, ps, k + 1, x, y) {
      FromRoundLinks(s, base, ps, k, t, r, x, y);
    }
  }

  /** The inner loop of the k-th round adds the links to the points its list names. */
  lemma RoundListLinks(s: ModelState, base: nat, ps: seq<Codec.PointFile>, k: nat, t: ModelState, x: Handle, y: Handle)
    requires LinkReady(s) && k < |ps| && Live(s, base + k) && x < |s.arena| && y < |s.arena|
    requires ResolveList(s, base + k, ps[k].neighbors) == Ok(t) && |t.arena| == |s.arena|
    ensures y in t.arena[x].neighbors <==> y in s.arena[x].neighbors || Joins(s, base + k, ps[k].neighbors, x, y)
  {
    ResolveListLinks(s, base + k, ps[k].neighbors, t, x, y);
  }

  /** One round of the outer loop: the links it adds, then those the rest of the loop adds. */
  lemma FromRoundLinks(s: ModelState, base: nat, ps: seq<Codec.PointFile>, k: nat, t: ModelState, r: ModelState, x: Handle, y: Handle)
    requires k < |ps| && x < |s.arena| && y < |s.arena|
    requires Cursors.SameExceptNeighbors(s, t) && |r.arena| == |s.arena|
    requires y in t.arena[x].neighbors <==> y in s.arena[x].neighbors || Joins(s, base + k, ps[k].neighbors, x, y)
    requires y in r.arena[x].neighbors <==> y in t.arena[x].neighbors || JoinsFrom(t, base, ps, k + 1, x, y)
    ensures y in r.arena[x].neighbors <==> y in s.arena[x].neighbors || JoinsFrom(s, base, ps, k, x, y)
  {
    JoinsFromStep(s, t, base, ps, k, x, y);
    FromLinksStep(s, t, r, base, ps, k, x, y);
  }

  /** The whole outer loop adds exactly the links its inner loops add. */
  lemma ResolveLinks(s: ModelState, base: nat, ps: seq<Codec.PointFile>, r: ModelState)
    requires LinkReady(s) && base + |ps| <= |s.arena|
    requires forall h: Handle :: base <= h < base + |ps| ==> Live(s, h)
    requires ResolveFrom(s, base, ps, 0) == Ok(r)
    ensures forall x, y :: 0 <= x < |s.arena| && 0 <= y < |s.arena| ==>
      (y in r.arena[x].neighbors <==> y in s.arena[x].neighbors || JoinsFrom(s, base, ps, 0, x, y))
  {
    assert RoundReady(s, base, ps, 0);
    forall x, y | 0 <= x < |s.arena| && 0 <= y < |s.arena|
      ensures y in r.arena[x].neighbors <==> y in s.arena[x].neighbors || JoinsFrom(s, base, ps, 0, x, y)
    {
      ResolveFromLinks(s, base, ps, 0, r, x, y);
    }
  }

  /** The links from the k-th point on are those of the k-th point's list and those
      from the next point on, which no list edit changes. */
  lemma JoinsFromStep(s: ModelState, t: ModelState, base: nat, ps: seq<Codec.PointFile>, k: nat, x: Handle, y: Handle)
    requires Cursors.SameExceptNeighbors(s, t) && k < |ps| && x < |s.arena| && y < |s.arena|
    ensures JoinsFrom(s, base, ps, k, x, y) <==>
      Joins(s, base + k, ps[k].neighbors, x, y) || JoinsFrom(t, base, ps, k + 1, x, y)
  {
    NeighborsOnly(s, t);
    assert Live(t, x) == Live(s, x) && Live(t, y) == Live(s, y);
    if JoinsFrom(s, base, ps, k, x, y) {
      var j :| k <= j < |ps| && Joins(s, base + j, ps[j].neighbors, x, y);
      if j != k {
        assert Joins(t, base + j, ps[j].neighbors, x, y);
      }
    }
    if JoinsFrom(t, base, ps, k + 1, x, y) {
      var j :| k + 1 <= j < |ps| && Joins(t, base + j, ps[j].neighbors, x, y);
      assert Joins(s, base + j, ps[j].neighbors, x, y);
    }
  }

  lemma FromLinksStep(s: ModelState, t: ModelState, r: ModelState, base: nat, ps: seq<Codec.PointFile>, k: nat, x: Handle, y: Handle)
    requires k < |ps| && x < |s.arena| && y < |s.arena| && |t.arena| == |s.arena| && |r.arena| == |s.arena|
    requires y in t.arena[x].neighbors <==> y in s.arena[x].neighbors || Joins(s, base + k, ps[k].neighbors, x, y)
    requires y in r.arena[x].neighbors <==> y in t.arena[x].neighbors || JoinsFrom(t, base, ps, k + 1, x, y)
    requires JoinsFrom(s, base, ps, k, x, y) <==> Joins(s, base + k, ps[k].neighbors, x, y) || JoinsFrom(t, base, ps, k + 1, x, y)
    ensures y in r.arena[x].neighbors <==> y in s.arena[x].neighbors || JoinsFrom(s, base, ps, k, x, y)
  {
  }

  // ----- the neighbour loops on the staged model --------------------------------

  /** The object created for the k-th saved point, linked to its chain neighbours. */
  lemma CreatedPointAt(a: seq<PointRec>, ps: seq<Codec.PointFile>, k: nat)
    requires k < |ps|
    ensures (a + CreatedPoints(|a|, ps))[|a| + k] ==
      Created(ps[k], if k == 0 then None else Some(|a| + k - 1), if k == |ps| - 1 then None else Some(|a| + k + 1))
  {
    assert (a + CreatedPoints(|a|, ps))[|a| + k] == CreatedPoints(|a|, ps)[k];
  }

  /** The loaded points sit at base, base + 1, ... in file order, each a point of the
      model carrying its saved ID and no neighbour yet. */
  ghost predicate Loaded(t: ModelState, base: nat, ps: seq<Codec.PointFile>) {
    && base + |ps| <= |t.arena|
    && forall h: Handle :: base <= h < base + |ps| ==>
      Live(t, h) && t.arena[h].id == ps[h - base].id && t.arena[h].neighbors == []
  }

  /** The staged model holds the loaded points so. */
  lemma StagedLoaded(s: ModelState, d: Codec.Decoded)
    requires NoDup(Codec.IdsOf(d.points))
    ensures Loaded(Staged(s, d), |s.arena|, d.points)
  {
    StagedParts(s, d);
    CreatedLoaded(Staged(s, d), s.arena, d.points);
  }

  /** The arena and the ID map of the staged model. */
  lemma StagedParts(s: ModelState, d: Codec.Decoded)
    requires NoDup(Codec.IdsOf(d.points))
    ensures Staged(s, d).arena == s.arena + CreatedPoints(|s.arena|, d.points)
    ensures Staged(s, d).index == Registered(|s.arena|, Codec.IdsOf(d.points))
  {
  }

  lemma CreatedLoaded(t: ModelState, a: seq<PointRec>, ps: seq<Codec.PointFile>)
    requires NoDup(Codec.IdsOf(ps))
    requires t.arena == a + CreatedPoints(|a|, ps) && t.index == Registered(|a|, Codec.IdsOf(ps))
    ensures Loaded(t, |a|, ps)
  {
    CreatedLive(a, ps);
    forall h: Handle | |a| <= h < |a| + |ps|
      ensures Live(t, h) && t.arena[h].id == ps[h - |a|].id && t.arena[h].neighbors == []
    {
    }
  }

  lemma CreatedLive(a: seq<PointRec>, ps: seq<Codec.PointFile>)
    requires NoDup(Codec.IdsOf(ps))
    ensures var c, m := a + CreatedPoints(|a|, ps), Registered(|a|, Codec.IdsOf(ps));
      forall h: Handle :: |a| <= h < |a| + |ps| ==>
        && h < |c| && c[h].id in m && m[c[h].id] == h
        && c[h].id == ps[h - |a|].id && c[h].neighbors == []
  {
    forall h: Handle | |a| <= h < |a| + |ps|
      ensures var c, m := a + CreatedPoints(|a|, ps), Registered(|a|, Codec.IdsOf(ps));
        && h < |c| && c[h].id in m && m[c[h].id] == h
        && c[h].id == ps[h - |a|].id && c[h].neighbors == []
    {
      CreatedLiveAt(a, ps, h);
      CreatedPointAt(a, ps, h - |a|);
    }
  }

  /** The objects from base on carry the saved points' fields, in file order, each
      linked to the objects just before and just after it. */
  ghost predicate PointsAsSaved(a: seq<PointRec>, base: nat, ps: seq<Codec.PointFile>)
    requires base + |ps| <= |a|
  {
    forall k :: 0 <= k < |ps| ==>
      a[base + k].(neighbors := []) ==
        Created(ps[k], if k == 0 then None else Some(base + k - 1), if k == |ps| - 1 then None else Some(base + k + 1))
  }

  lemma CreatedAsSaved(a: seq<PointRec>, ps: seq<Codec.PointFile>)
    ensures |a| + |ps| <= |a + CreatedPoints(|a|, ps)| && PointsAsSaved(a + CreatedPoints(|a|, ps), |a|, ps)
  {
    forall k | 0 <= k < |ps|
      ensures (a + CreatedPoints(|a|, ps))[|a| + k].(neighbors := []) ==
        Created(ps[k], if k == 0 then None else Some(|a| + k - 1), if k == |ps| - 1 then None else Some(|a| + k + 1))
    {
      CreatedPointAt(a, ps, k);
    }
  }

  /** Editing neighbour lists keeps the saved fields. */
  lemma AsSavedKept(s: ModelState, t: ModelState, base: nat, ps: seq<Codec.PointFile>)
    requires Cursors.SameExceptNeighbors(s, t) && base + |ps| <= |s.arena| && PointsAsSaved(s.arena, base, ps)
    ensures PointsAsSaved(t.arena, base, ps)
  {
    forall k | 0 <= k < |ps|
      ensures t.arena[base + k].(neighbors := []) ==
        Created(ps[k], if k == 0 then None else Some(base + k - 1), if k == |ps| - 1 then None else Some(base + k + 1))
    {
      assert t.arena[base + k] == s.arena[base + k].(neighbors := t.arena[base + k].neighbors);
    }
  }

  /** On a model holding the loaded points, the outer loop joins the objects of the k-th
      and m-th saved points exactly when they differ and one lists the other's ID. */
  lemma LoadedJoins(t: ModelState, base: nat, ps: seq<Codec.PointFile>, k: nat, m: nat)
    requires Loaded(t, base, ps) && k < |ps| && m < |ps|
    ensures JoinsFrom(t, base, ps, 0, base + k, base + m) <==>
      k != m && (ps[m].id in ps[k].neighbors || ps[k].id in ps[m].neighbors)
  {
    assert Live(t, base + k) && t.arena[base + k].id == ps[k].id;
    assert Live(t, base + m) && t.arena[base + m].id == ps[m].id;
    if k != m && ps[m].id in ps[k].neighbors {
      assert Joins(t, base + k, ps[k].neighbors, base + k, base + m);
    }
    if k != m && ps[k].id in ps[m].neighbors {
      assert Joins(t, base + m, ps[m].neighbors, base + k, base + m);
    }
  }

  /** The neighbour loops on a valid model holding the loaded points keep it valid. */
  lemma LoadedValid(t: ModelState, hs: seq<Handle>, base: nat, ps: seq<Codec.PointFile>, u: ModelState)
    requires Valid(t, hs) && Loaded(t, base, ps) && ResolveFrom(t, base, ps, 0) == Ok(u)
    ensures Valid(u, hs) && Cursors.SameExceptNeighbors(t, u)
  {
    assert RoundReady(t, base, ps, 0);
    ResolveFromReady(t, base, ps, 0);
    Cursors.NeighborEditValid(t, hs, u);
  }

  /** The objects of the saved points, from base on, are neighbours exactly when they
      differ and one of the two points lists the other's ID. */
  ghost predicate LinkedAsSaved(a: seq<PointRec>, base: nat, ps: seq<Codec.PointFile>)
    requires base + |ps| <= |a|
  {
    forall k, m :: 0 <= k < |ps| && 0 <= m < |ps| ==>
      (base + m in a[base + k].neighbors <==>
        k != m && (ps[m].id in ps[k].neighbors || ps[k].id in ps[m].neighbors))
  }

  /** They link two loaded points exactly when one lists the other's ID. */
  lemma LoadedLinks(t: ModelState, base: nat, ps: seq<Codec.PointFile>, u: ModelState)
    requires LinkReady(t) && Loaded(t, base, ps) && ResolveFrom(t, base, ps, 0) == Ok(u)
    ensures base + |ps| <= |u.arena| && LinkedAsSaved(u.arena, base, ps)
  {
    assert forall h: Handle :: base <= h < base + |ps| ==> Live(t, h);
    ResolveLinks(t, base, ps, u);
    forall k, m | 0 <= k < |ps| && 0 <= m < |ps|
      ensures base + m in u.arena[base + k].neighbors <==>
        k != m && (ps[m].id in ps[k].neighbors || ps[k].id in ps[m].neighbors)
    {
      LoadedLink(t, base, ps, u, k, m);
    }
  }

  /** The links the outer loop adds between loaded points, read back as IDs. */
  lemma LoadedLink(t: ModelState, base: nat, ps: seq<Codec.PointFile>, u: ModelState, k: nat, m: nat)
    requires Loaded(t, base, ps) && k < |ps| && m < |ps| && |u.arena| == |t.arena|
    requires base + m in u.arena[base + k].neighbors <==>
      base + m in t.arena[base + k].neighbors || JoinsFrom(t, base, ps, 0, base + k, base + m)
    ensures base + m in u.arena[base + k].neighbors <==>
      k != m && (ps[m].id in ps[k].neighbors || ps[k].id in ps[m].neighbors)
  {
    assert t.arena[base + k].neighbors == [];
    LoadedJoins(t, base, ps, k, m);
  }
}
