// Cl3DModelPointIterator: a cursor over the points of a model. A cursor is the value
// of its m_pActualPoint field (a Handle or null); its moves return the new value.
// Every accessor of an invalid cursor fails with InvalidCursor.

module Cursors {
  import opened Types
  import opened MeshState
  import Assoc

  // ----- movement ---------------------------------------------------------------

  /** MoveToPoint: jump to the point with the given ID; fails, leaving the cursor where
      it was, when the cursor is invalid or no point has that ID. */
  function MoveToPoint(s: ModelState, c: Cursor, id: u32): (r: (bool, Cursor))
    ensures r.0 <==> c.Some? && id in s.index
    ensures r.0 ==> r.1 == Some(s.index[id])
    ensures !r.0 ==> r.1 == c
  {
    if c.None? then (false, c)
    else if id in s.index then (true, Some(s.index[id]))
    else (false, c)
  }

  /** MoveToNext: follow m_NextPoint; past the tail the cursor becomes invalid. */
  function MoveToNext(s: ModelState, c: Cursor): (r: (bool, Cursor))
    requires InArena(s, c)
    ensures c.None? ==> r == (false, None)
    ensures c.Some? ==> r.1 == s.arena[c.value].next && (r.0 <==> r.1.Some?)
  {
    if c.None? then (false, None)
    else var n := s.arena[c.value].next; (n.Some?, n)
  }

  /** MoveToPrevious: follow m_PrevPoint; at the head it fails and stays put. */
  function MoveToPrevious(s: ModelState, c: Cursor): (r: (bool, Cursor))
    requires InArena(s, c)
    ensures r.0 <==> c.Some? && s.arena[c.value].prev.Some?
    ensures r.0 ==> r.1 == s.arena[c.value].prev
    ensures !r.0 ==> r.1 == c
  {
    if c.None? || s.arena[c.value].prev.None? then (false, c)
    else (true, s.arena[c.value].prev)
  }

  function IsValid(c: Cursor): bool { c.Some? }

  /** CopyIterator: an independent cursor on the same point. */
  function CopyIterator(c: Cursor): (r: Result<Cursor>)
    ensures r.Err? <==> c.None?
    ensures r.Err? ==> r.error == InvalidCursor
    ensures r.Ok? ==> r.value == c
  {
    if c.None? then Err(InvalidCursor) else Ok(c)
  }

  /** Walking forward from the head visits the chain in order: after k successful
      moves the cursor is on the k-th point, and moving off the tail invalidates it. */
  lemma {:induction false} WalkForward(s: ModelState, hs: seq<Handle>, k: nat)
    requires ChainIs(s, hs) && k < |hs|
    ensures MoveToNext(s, Some(hs[k])) ==
      if k + 1 < |hs| then (true, Some(hs[k + 1])) else (false, None)
    ensures k > 0 ==> MoveToPrevious(s, Some(hs[k])) == (true, Some(hs[k - 1]))
    ensures k == 0 ==> MoveToPrevious(s, Some(hs[k])) == (false, Some(hs[k]))
  {
    if k + 1 < |hs| {
      assert s.arena[hs[k]].next == Some(hs[k + 1]);
    }
  }

  /** A successful MoveToNext can be undone by MoveToPrevious. */
  lemma NextThenPrevious(s: ModelState, hs: seq<Handle>, h: Handle)
    requires ChainIs(s, hs) && h in hs
    requires MoveToNext(s, Some(h)).0
    ensures InArena(s, MoveToNext(s, Some(h)).1)
    ensures MoveToPrevious(s, MoveToNext(s, Some(h)).1) == (true, Some(h))
  {
    var k :| 0 <= k < |hs| && hs[k] == h;
    WalkForward(s, hs, k);
    WalkForward(s, hs, k + 1);
  }

  // ----- checked field accessors ------------------------------------------------

  datatype SingleField = X | Y | Z | U | V
  datatype IntField = RangeImageX | RangeImageY

  function SingleOf(p: PointRec, f: SingleField): Single {
    match f
    case X => p.x
    case Y => p.y
    case Z => p.z
    case U => p.u
    case V => p.v
  }

  function WithSingle(p: PointRec, f: SingleField, v: Single): (q: PointRec)
    ensures SingleOf(q, f) == v
    ensures forall g :: g != f ==> SingleOf(q, g) == SingleOf(p, g)
    ensures q.(x := p.x, y := p.y, z := p.z, u := p.u, v := p.v) == p
  {
    match f
    case X => p.(x := v)
    case Y => p.(y := v)
    case Z => p.(z := v)
    case U => p.(u := v)
    case V => p.(v := v)
  }

  function IntOf(p: PointRec, f: IntField): i32 {
    match f
    case RangeImageX => p.rangeX
    case RangeImageY => p.rangeY
  }

  function WithInt(p: PointRec, f: IntField, v: i32): (q: PointRec)
    ensures IntOf(q, f) == v
    ensures forall g :: g != f ==> IntOf(q, g) == IntOf(p, g)
    ensures q.(rangeX := p.rangeX, rangeY := p.rangeY) == p
  {
    match f
    case RangeImageX => p.(rangeX := v)
    case RangeImageY => p.(rangeY := v)
  }

  /** The X, Y, Z, U and V getters. */
  function GetSingle(s: ModelState, c: Cursor, f: SingleField): (r: Result<Single>)
    requires InArena(s, c)
    ensures r.Err? <==> c.None?
    ensures r.Err? ==> r.error == InvalidCursor
    ensures r.Ok? ==> r.value == SingleOf(s.arena[c.value], f)
  {
    if c.None? then Err(InvalidCursor) else Ok(SingleOf(s.arena[c.value], f))
  }

  /** The X, Y, Z, U and V setters. */
  function SetSingle(s: ModelState, c: Cursor, f: SingleField, v: Single): (r: Result<ModelState>)
    requires InArena(s, c)
    ensures r.Err? <==> c.None?
    ensures r.Err? ==> r.error == InvalidCursor
    ensures r.Ok? ==> r.value == Update(s, c.value, WithSingle(s.arena[c.value], f, v))
  {
    if c.None? then Err(InvalidCursor)
    else Ok(Update(s, c.value, WithSingle(s.arena[c.value], f, v)))
  }

  function GetInt(s: ModelState, c: Cursor, f: IntField): (r: Result<i32>)
    requires InArena(s, c)
    ensures r.Err? <==> c.None?
    ensures r.Err? ==> r.error == InvalidCursor
    ensures r.Ok? ==> r.value == IntOf(s.arena[c.value], f)
  {
    if c.None? then Err(InvalidCursor) else Ok(IntOf(s.arena[c.value], f))
  }

  function SetInt(s: ModelState, c: Cursor, f: IntField, v: i32): (r: Result<ModelState>)
    requires InArena(s, c)
    ensures r.Err? <==> c.None?
    ensures r.Err? ==> r.error == InvalidCursor
    ensures r.Ok? ==> r.value == Update(s, c.value, WithInt(s.arena[c.value], f, v))
  {
    if c.None? then Err(InvalidCursor)
    else Ok(Update(s, c.value, WithInt(s.arena[c.value], f, v)))
  }

  /** The AlreadyVisited getter. */
  function GetVisited(s: ModelState, c: Cursor): (r: Result<bool>)
    requires InArena(s, c)
    ensures r.Err? <==> c.None?
    ensures r.Err? ==> r.error == InvalidCursor
    ensures r.Ok? ==> r.value == s.arena[c.value].visited
  {
    if c.None? then Err(InvalidCursor) else Ok(s.arena[c.value].visited)
  }

  /** The AlreadyVisited setter. */
  function SetVisited(s: ModelState, c: Cursor, v: bool): (r: Result<ModelState>)
    requires InArena(s, c)
    ensures r.Err? <==> c.None?
    ensures r.Err? ==> r.error == InvalidCursor
    ensures r.Ok? ==> r.value == Update(s, c.value, s.arena[c.value].(visited := v))
  {
    if c.None? then Err(InvalidCursor) else Ok(Update(s, c.value, s.arena[c.value].(visited := v)))
  }

  /** The Color getter (a packed ARGB value). */
  function GetColor(s: ModelState, c: Cursor): (r: Result<Argb>)
    requires InArena(s, c)
    ensures r.Err? <==> c.None?
    ensures r.Err? ==> r.error == InvalidCursor
    ensures r.Ok? ==> r.value == s.arena[c.value].color
  {
    if c.None? then Err(InvalidCursor) else Ok(s.arena[c.value].color)
  }

  function SetColor(s: ModelState, c: Cursor, col: Argb): (r: Result<ModelState>)
    requires InArena(s, c)
    ensures r.Err? <==> c.None?
    ensures r.Err? ==> r.error == InvalidCursor
    ensures r.Ok? ==> r.value == Update(s, c.value, s.arena[c.value].(color := col))
  {
    if c.None? then Err(InvalidCursor) else Ok(Update(s, c.value, s.arena[c.value].(color := col)))
  }

  /** ColorR, ColorG and ColorB: one byte of the colour each. */
  function GetColorChannels(s: ModelState, c: Cursor): (r: Result<(nat, nat, nat)>)
    requires InArena(s, c)
    ensures r.Err? <==> c.None?
    ensures r.Err? ==> r.error == InvalidCursor
    ensures r.Ok? ==> r.value.0 < 0x100 && r.value.1 < 0x100 && r.value.2 < 0x100
    ensures r.Ok? ==> r.value.0 * 0x1_0000 + r.value.1 * 0x100 + r.value.2
                      == Unsigned(s.arena[c.value].color) % 0x100_0000
  {
    if c.None? then Err(InvalidCursor)
    else
      var col := s.arena[c.value].color;
      ChannelsRepack(col);
      Ok((Red(col), Green(col), Blue(col)))
  }

  /** The NormalVector getter: also fails while no normal has been set. */
  function GetNormal(s: ModelState, c: Cursor): (r: Result<NormalVector>)
    requires InArena(s, c)
    ensures c.None? ==> r == Err(InvalidCursor)
    ensures c.Some? && s.arena[c.value].normal.None? ==> r == Err(NormalUnavailable)
    ensures c.Some? && s.arena[c.value].normal.Some? ==> r == Ok(s.arena[c.value].normal.value)
  {
    if c.None? then Err(InvalidCursor)
    else if s.arena[c.value].normal.None? then Err(NormalUnavailable)
    else Ok(s.arena[c.value].normal.value)
  }

  function SetNormal(s: ModelState, c: Cursor, n: NormalVector): (r: Result<ModelState>)
    requires InArena(s, c)
    ensures r.Err? <==> c.None?
    ensures r.Err? ==> r.error == InvalidCursor
    ensures r.Ok? ==> r.value == Update(s, c.value, s.arena[c.value].(normal := Some(n)))
  {
    if c.None? then Err(InvalidCursor) else Ok(Update(s, c.value, s.arena[c.value].(normal := Some(n))))
  }

  /** The PointID getter (there is no setter: the ID is readonly). */
  function GetPointID(s: ModelState, c: Cursor): (r: Result<u32>)
    requires InArena(s, c)
    ensures r.Err? <==> c.None?
    ensures r.Err? ==> r.error == InvalidCursor
    ensures r.Ok? ==> r.value == s.arena[c.value].id
  {
    if c.None? then Err(InvalidCursor) else Ok(s.arena[c.value].id)
  }

  /** A setter changes its own field of its own point and nothing else: reading the
      field back gives the value written, reading another field or another point gives
      what was there before. */
  lemma SetSingleGet(s: ModelState, c: Cursor, f: SingleField, v: Single, d: Cursor, g: SingleField)
    requires InArena(s, c) && InArena(s, d) && c.Some?
    ensures GetSingle(SetSingle(s, c, f, v).value, d, g) ==
      if d == c && g == f then Ok(v) else GetSingle(s, d, g)
  {
  }

  lemma SetIntGet(s: ModelState, c: Cursor, f: IntField, v: i32, d: Cursor, g: IntField)
    requires InArena(s, c) && InArena(s, d) && c.Some?
    ensures GetInt(SetInt(s, c, f, v).value, d, g) ==
      if d == c && g == f then Ok(v) else GetInt(s, d, g)
  {
  }

  /** Changing a point's attributes, but not its ID, its links, its neighbours, its
      flag count or the uniqueness of its feature names, keeps the model invariant. */
  lemma AttributeUpdateValid(s: ModelState, hs: seq<Handle>, h: Handle, p: PointRec)
    requires Valid(s, hs) && h < |s.arena|
    requires p.id == s.arena[h].id && p.next == s.arena[h].next && p.prev == s.arena[h].prev
    requires p.neighbors == s.arena[h].neighbors
    requires |p.flags| == |s.arena[h].flags| && (Assoc.Unique(s.arena[h].features) ==> Assoc.Unique(p.features))
    ensures Valid(Update(s, h, p), hs)
  {
    var t := Update(s, h, p);
    SkeletonKeeps(s, t, hs);
    SameAdjacency(s, t);
    assert PointsShaped(t);
    SkeletonValid(s, hs, t);
  }

  /** Equal neighbour lists over the same skeleton: the adjacency invariants carry over. */
  lemma SameAdjacency(s: ModelState, t: ModelState)
    requires SameSkeleton(s, t) && WellFormed(s) && Symmetric(s) && SimpleLists(s) && NeighborsLive(s)
    requires forall g :: 0 <= g < |t.arena| ==> t.arena[g].neighbors == s.arena[g].neighbors
    ensures WellFormed(t) && Symmetric(t) && SimpleLists(t) && NeighborsLive(t)
  {
    SkeletonKeeps(s, t, []);
    forall g | 0 <= g < |t.arena| ensures PointOk(t, t.arena[g]) {
      assert PointOk(s, s.arena[g]);
    }
  }

  /** Over the same skeleton, the model invariant holds again once adjacency and the
      per-point shape are re-established. */
  lemma SkeletonValid(s: ModelState, hs: seq<Handle>, t: ModelState)
    requires Valid(s, hs) && SameSkeleton(s, t)
    requires WellFormed(t) && Symmetric(t) && SimpleLists(t) && NeighborsLive(t) && PointsShaped(t)
    ensures Valid(t, hs)
  {
    SkeletonKeeps(s, t, hs);
  }

  /** Every setter keeps the model invariant. */
  lemma SettersValid(s: ModelState, hs: seq<Handle>, c: Cursor, f: SingleField, v: Single, g: IntField, i: i32)
    requires Valid(s, hs) && InArena(s, c) && c.Some?
    ensures Valid(SetSingle(s, c, f, v).value, hs)
    ensures Valid(SetInt(s, c, g, i).value, hs)
  {
    var h := c.value;
    var p := s.arena[h];
    AttributeUpdateValid(s, hs, h, WithSingle(p, f, v));
    AttributeUpdateValid(s, hs, h, WithInt(p, g, i));
  }

  lemma MarkSettersValid(s: ModelState, hs: seq<Handle>, c: Cursor, b: bool, col: Argb, n: NormalVector)
    requires Valid(s, hs) && InArena(s, c) && c.Some?
    ensures Valid(SetVisited(s, c, b).value, hs)
    ensures Valid(SetColor(s, c, col).value, hs)
    ensures Valid(SetNormal(s, c, n).value, hs)
  {
    var h := c.value;
    var p := s.arena[h];
    AttributeUpdateValid(s, hs, h, p.(visited := b));
    AttributeUpdateValid(s, hs, h, p.(color := col));
    AttributeUpdateValid(s, hs, h, p.(normal := Some(n)));
  }

  // ----- feature map (m_dPointValues) --------------------------------------------

  /** AddSpecificValue: store a feature value; an existing value is replaced. */
  function AddSpecificValue(s: ModelState, c: Cursor, name: string, value: Double): (r: Result<ModelState>)
    requires InArena(s, c)
    ensures r.Err? <==> c.None?
    ensures r.Err? ==> r.error == InvalidCursor
    ensures r.Ok? ==> r.value == Update(s, c.value,
      s.arena[c.value].(features := Assoc.Put(s.arena[c.value].features, name, value)))
  {
    if c.None? then Err(InvalidCursor)
    else
      var p := s.arena[c.value];
      Ok(Update(s, c.value, p.(features := Assoc.Put(p.features, name, value))))
  }

  /** GetSpecificValue(name, out value): TryGetValue on the feature map. */
  function TryGetSpecificValue(s: ModelState, c: Cursor, name: string): (r: Result<Option<Double>>)
    requires InArena(s, c)
    ensures r.Err? <==> c.None?
    ensures r.Err? ==> r.error == InvalidCursor
    ensures r.Ok? ==> (r.value.None? <==> !Assoc.HasKey(s.arena[c.value].features, name))
    ensures r.Ok? && r.value.Some? ==> (name, r.value.value) in s.arena[c.value].features
  {
    if c.None? then Err(InvalidCursor)
    else
      Assoc.GetStored(s.arena[c.value].features, name);
      Ok(Assoc.Get(s.arena[c.value].features, name))
  }

  /** GetSpecificValue(name): the value, or an exception when it was never stored. */
  function GetSpecificValue(s: ModelState, c: Cursor, name: string): (r: Result<Double>)
    requires InArena(s, c)
    ensures c.None? ==> r == Err(InvalidCursor)
    ensures c.Some? && !Assoc.HasKey(s.arena[c.value].features, name) ==> r == Err(NotFound)
    ensures r.Ok? ==> TryGetSpecificValue(s, c, name) == Ok(Some(r.value))
  {
    var t :- TryGetSpecificValue(s, c, name);
    if t.None? then Err(NotFound) else Ok(t.value)
  }

  /** RemoveSpecificValue: drop a feature; removing a missing one changes nothing. */
  function RemoveSpecificValue(s: ModelState, c: Cursor, name: string): (r: Result<ModelState>)
    requires InArena(s, c)
    ensures r.Err? <==> c.None?
    ensures r.Err? ==> r.error == InvalidCursor
    ensures r.Ok? ==> r.value == Update(s, c.value,
      s.arena[c.value].(features := Assoc.Remove(s.arena[c.value].features, name)))
  {
    if c.None? then Err(InvalidCursor)
    else
      var p := s.arena[c.value];
      Ok(Update(s, c.value, p.(features := Assoc.Remove(p.features, name))))
  }

  function IsSpecificValueCalculated(s: ModelState, c: Cursor, name: string): (r: Result<bool>)
    requires InArena(s, c)
    ensures r.Err? <==> c.None?
    ensures r.Err? ==> r.error == InvalidCursor
    ensures r.Ok? ==> (r.value <==> Assoc.HasKey(s.arena[c.value].features, name))
  {
    if c.None? then Err(InvalidCursor) else Ok(Assoc.HasKey(s.arena[c.value].features, name))
  }

  /** GetListOfSpecificValues: the stored feature names in enumeration order. */
  function GetListOfSpecificValues(s: ModelState, c: Cursor): (r: Result<seq<string>>)
    requires InArena(s, c)
    ensures r.Err? <==> c.None?
    ensures r.Err? ==> r.error == InvalidCursor
    ensures r.Ok? ==> |r.value| == |s.arena[c.value].features|
    ensures r.Ok? ==> forall i :: 0 <= i < |r.value| ==> r.value[i] == s.arena[c.value].features[i].0
  {
    if c.None? then Err(InvalidCursor) else Ok(Assoc.Keys(s.arena[c.value].features))
  }

  /** The feature map is last-writer-wins: after storing a value under a name the name
      reads back that value and every other name reads what it read before; after
      removing a name it is missing and every other name is unaffected. */
  lemma FeatureMapSemantics(s: ModelState, c: Cursor, name: string, value: Double, other: string)
    requires InArena(s, c) && c.Some?
    ensures var t := AddSpecificValue(s, c, name, value).value;
      TryGetSpecificValue(t, c, other) ==
        if other == name then Ok(Some(value)) else TryGetSpecificValue(s, c, other)
    ensures var t := RemoveSpecificValue(s, c, name).value;
      TryGetSpecificValue(t, c, other) ==
        if other == name then Ok(None) else TryGetSpecificValue(s, c, other)
  {
    Assoc.PutGet(s.arena[c.value].features, name, value, other);
    Assoc.RemoveGet(s.arena[c.value].features, name, other);
  }

  /** Storing and removing a feature keep the model invariant. */
  lemma FeatureEditsValid(s: ModelState, hs: seq<Handle>, c: Cursor, name: string, value: Double)
    requires Valid(s, hs) && InArena(s, c) && c.Some?
    ensures Valid(AddSpecificValue(s, c, name, value).value, hs)
    ensures Valid(RemoveSpecificValue(s, c, name).value, hs)
  {
    var h := c.value;
    var p := s.arena[h];
    if Assoc.Unique(p.features) {
      Assoc.PutUnique(p.features, name, value);
      Assoc.RemoveUnique(p.features, name);
    }
    AttributeUpdateValid(s, hs, h, p.(features := Assoc.Put(p.features, name, value)));
    AttributeUpdateValid(s, hs, h, p.(features := Assoc.Remove(p.features, name)));
  }

  // ----- flags ----------------------------------------------------------------------

  /** SetFlag: indices past the eight flags are ignored. */
  function SetFlag(s: ModelState, c: Cursor, which: u32, val: bool): (r: Result<ModelState>)
    requires InArena(s, c)
    ensures r.Err? <==> c.None?
    ensures r.Err? ==> r.error == InvalidCursor
    ensures r.Ok? && which >= |s.arena[c.value].flags| ==> r.value == s
    ensures r.Ok? && which < |s.arena[c.value].flags| ==>
      r.value == Update(s, c.value, s.arena[c.value].(flags := s.arena[c.value].flags[which := val]))
  {
    if c.None? then Err(InvalidCursor)
    else
      var p := s.arena[c.value];
      if which < |p.flags| then Ok(Update(s, c.value, p.(flags := p.flags[which := val]))) else Ok(s)
  }

  /** GetFlag: false for indices past the eight flags. */
  function GetFlag(s: ModelState, c: Cursor, which: u32): (r: Result<bool>)
    requires InArena(s, c)
    ensures r.Err? <==> c.None?
    ensures r.Err? ==> r.error == InvalidCursor
    ensures r.Ok? ==> r.value == (which < |s.arena[c.value].flags| && s.arena[c.value].flags[which])
  {
    if c.None? then Err(InvalidCursor)
    else
      var p := s.arena[c.value];
      if which < |p.flags| then Ok(p.flags[which]) else Ok(false)
  }

  /** Flags are independent bits: a flag reads back what was last written to it, and
      writing one flag leaves the others alone. */
  lemma FlagSemantics(s: ModelState, c: Cursor, which: u32, val: bool, other: u32)
    requires InArena(s, c) && c.Some?
    ensures GetFlag(SetFlag(s, c, which, val).value, c, other) ==
      if other == which && which < |s.arena[c.value].flags| then Ok(val) else GetFlag(s, c, other)
  {
  }

  /** Setting a flag keeps the model invariant. */
  lemma SetFlagValid(s: ModelState, hs: seq<Handle>, c: Cursor, which: u32, val: bool)
    requires Valid(s, hs) && InArena(s, c) && c.Some?
    ensures Valid(SetFlag(s, c, which, val).value, hs)
  {
    var p := s.arena[c.value];
    if which < |p.flags| {
      AttributeUpdateValid(s, hs, c.value, p.(flags := p.flags[which := val]));
    }
  }

  // ----- landmarks seen from a point ------------------------------------------------

  ghost predicate TargetsOk(s: ModelState, lm: Assoc.Dict<string, Option<Handle>>) {
    forall i :: 0 <= i < |lm| ==> HandleOk(s, lm[i].1)
  }

  /** The scan shared by IsLabeled, IsThisPointInSpecificPoints and
      RemovePointFromModel: the first label, in enumeration order, bound to a point
      carrying the given ID. A null binding met before it is dereferenced and throws. */
  function FirstLabelOf(s: ModelState, lm: Assoc.Dict<string, Option<Handle>>, id: u32): (r: Result<Option<string>>)
    requires TargetsOk(s, lm)
    ensures r.Ok? && r.value.Some? ==>
      exists i :: 0 <= i < |lm| && lm[i].0 == r.value.value && lm[i].1.Some? && s.arena[lm[i].1.value].id == id
    ensures r == Ok(None) ==> forall i :: 0 <= i < |lm| ==>
      lm[i].1.Some? && s.arena[lm[i].1.value].id != id
    ensures r.Err? ==> r.error == NullReference
    ensures (forall i :: 0 <= i < |lm| ==> lm[i].1.Some?) ==> r.Ok?
  {
    if lm == [] then Ok(None)
    else if lm[0].1.None? then Err(NullReference)
    else if s.arena[lm[0].1.value].id == id then Ok(Some(lm[0].0))
    else
      var r := FirstLabelOf(s, lm[1..], id);
      assert r.Ok? && r.value.Some? ==>
        exists i :: 1 <= i < |lm| && lm[i].0 == r.value.value && lm[i].1.Some? && s.arena[lm[i].1.value].id == id by {
        if r.Ok? && r.value.Some? {
          var i :| 0 <= i < |lm[1..]| && lm[1..][i].0 == r.value.value
            && lm[1..][i].1.Some? && s.arena[lm[1..][i].1.value].id == id;
          assert lm[i + 1] == lm[1..][i];
        }
      }
      r
  }

  /** IsLabeled: the label bound to the cursor's point (the first one found), if any. */
  function IsLabeled(s: ModelState, c: Cursor): (r: Result<Option<string>>)
    requires InArena(s, c) && TargetsOk(s, s.landmarks)
    ensures c.None? ==> r == Err(InvalidCursor)
    ensures c.Some? ==> r == FirstLabelOf(s, s.landmarks, s.arena[c.value].id)
  {
    if c.None? then Err(InvalidCursor) else FirstLabelOf(s, s.landmarks, s.arena[c.value].id)
  }

  /** IsThisPointInSpecificPoints: the same scan, but the cursor is only dereferenced
      inside the loop, so an invalid cursor fails only when some label exists. */
  function IsThisPointInSpecificPoints(s: ModelState, c: Cursor): (r: Result<Option<string>>)
    requires InArena(s, c) && TargetsOk(s, s.landmarks)
    ensures s.landmarks == [] ==> r == Ok(None)
    ensures s.landmarks != [] && c.None? ==> r == Err(InvalidCursor)
    ensures s.landmarks != [] && c.Some? ==> r == IsLabeled(s, c)
  {
    if s.landmarks == [] then Ok(None)
    else if c.None? then Err(InvalidCursor)
    else FirstLabelOf(s, s.landmarks, s.arena[c.value].id)
  }

  /** In a valid model the label scan is exact: a label is reported exactly when some
      label is bound to the cursor's point, and the one reported is bound to it. */
  lemma IsLabeledExact(s: ModelState, hs: seq<Handle>, h: Handle)
    requires Valid(s, hs) && Live(s, h)
    ensures IsLabeled(s, Some(h)).Ok?
    ensures IsLabeled(s, Some(h)).value.Some? <==> exists l :: Assoc.Get(s.landmarks, l) == Some(Some(h))
    ensures IsLabeled(s, Some(h)).value.Some? ==>
      Assoc.Get(s.landmarks, IsLabeled(s, Some(h)).value.value) == Some(Some(h))
  {
    var lm := s.landmarks;
    var r := IsLabeled(s, Some(h));
    if r.value.Some? {
      var i :| 0 <= i < |lm| && lm[i].0 == r.value.value && lm[i].1.Some? && s.arena[lm[i].1.value].id == s.arena[h].id;
      assert Live(s, lm[i].1.value);
      Assoc.GetAt(lm, i);
    } else {
      forall l | Assoc.Get(lm, l) == Some(Some(h)) ensures false {
        var i :| 0 <= i < |lm| && lm[i].0 == l;
        Assoc.GetAt(lm, i);
      }
    }
  }

  // ----- adjacency ------------------------------------------------------------------

  /** IsPointInNeighbors: some neighbour carries the given ID. */
  function IsPointInNeighbors(s: ModelState, c: Cursor, id: u32): (r: Result<bool>)
    requires InArena(s, c) && WellFormed(s)
    ensures r.Err? <==> c.None?
    ensures r.Err? ==> r.error == InvalidCursor
    ensures r.Ok? ==> (r.value <==> exists j :: 0 <= j < |s.arena[c.value].neighbors|
                                     && s.arena[s.arena[c.value].neighbors[j]].id == id)
  {
    if c.None? then Err(InvalidCursor)
    else
      assert PointOk(s, s.arena[c.value]);
      Ok(HasNeighborWithId(s, s.arena[c.value].neighbors, id))
  }

  predicate HasNeighborWithId(s: ModelState, ns: seq<Handle>, id: u32)
    requires forall j :: 0 <= j < |ns| ==> ns[j] < |s.arena|
  {
    exists j :: 0 <= j < |ns| && s.arena[ns[j]].id == id
  }

  /** GetListOfNeighbors: one fresh cursor per neighbour, in list order. */
  function GetListOfNeighbors(s: ModelState, c: Cursor): (r: Result<seq<Cursor>>)
    requires InArena(s, c)
    ensures r.Err? <==> c.None?
    ensures r.Err? ==> r.error == InvalidCursor
    ensures r.Ok? ==> |r.value| == |s.arena[c.value].neighbors|
    ensures r.Ok? ==> forall j :: 0 <= j < |r.value| ==> r.value[j] == Some(s.arena[c.value].neighbors[j])
  {
    if c.None? then Err(InvalidCursor)
    else
      var ns := s.arena[c.value].neighbors;
      Ok(seq(|ns|, j requires 0 <= j < |ns| => Some(ns[j])))
  }

  /** Both list edits of AddNeighbor's success path: A lists B, then B lists A. */
  function Link(s: ModelState, a: Handle, b: Handle): (t: ModelState)
    requires a < |s.arena| && b < |s.arena|
    ensures |t.arena| == |s.arena|
  {
    var s1 := Update(s, a, s.arena[a].(neighbors := s.arena[a].neighbors + [b]));
    Update(s1, b, s1.arena[b].(neighbors := s1.arena[b].neighbors + [a]))
  }

  /** Both list edits of RemoveNeighbor: A drops B, then B drops A (first occurrences). */
  function Unlink(s: ModelState, a: Handle, b: Handle): (t: ModelState)
    requires a < |s.arena| && b < |s.arena|
    ensures |t.arena| == |s.arena|
    ensures SameExceptNeighbors(s, t)
    ensures forall g, j :: 0 <= g < |t.arena| && 0 <= j < |t.arena[g].neighbors| ==>
      t.arena[g].neighbors[j] in s.arena[g].neighbors
  {
    RemoveFirstMembers(s.arena[a].neighbors, b);
    var s1 := Update(s, a, s.arena[a].(neighbors := RemoveFirst(s.arena[a].neighbors, b)));
    RemoveFirstMembers(s1.arena[b].neighbors, a);
    Update(s1, b, s1.arena[b].(neighbors := RemoveFirst(s1.arena[b].neighbors, a)))
  }

  /** AddNeighbor: link two points both ways. Adding the point itself, or a point whose
      ID is already among the neighbours, changes nothing. The rollback of the first
      edit when the second throws is unreachable here: appending to a list cannot
      fail in the model. */
  function AddNeighbor(s: ModelState, c: Cursor, other: Cursor): (r: Result<ModelState>)
    requires InArena(s, c) && InArena(s, other) && WellFormed(s)
    ensures r.Err? <==> c.None? || other.None?
    ensures r.Err? ==> r.error == InvalidCursor
    ensures r.Ok? && s.arena[other.value].id == s.arena[c.value].id ==> r.value == s
    ensures r.Ok? && IsPointInNeighbors(s, c, s.arena[other.value].id) == Ok(true) ==> r.value == s
  {
    if c.None? || other.None? then Err(InvalidCursor)
    else
      var a, b := c.value, other.value;
      if s.arena[b].id == s.arena[a].id then Ok(s)
      else if IsPointInNeighbors(s, c, s.arena[b].id) == Ok(true) then Ok(s)
      else Ok(Link(s, a, b))
  }

  /** RemoveNeighbor: unlink two points both ways. With an invalid second cursor the
      first (no-op) removal happens and dereferencing it then throws. */
  function RemoveNeighbor(s: ModelState, c: Cursor, other: Cursor): (r: Result<ModelState>)
    requires InArena(s, c) && InArena(s, other)
    ensures c.None? ==> r == Err(InvalidCursor)
    ensures c.Some? && other.None? ==> r == Err(NullReference)
    ensures r.Ok? <==> c.Some? && other.Some?
  {
    if c.None? then Err(InvalidCursor)
    else if other.None? then Err(NullReference)
    else Ok(Unlink(s, c.value, other.value))
  }

  /** The neighbour lists of a and b after linking them; every other list is unchanged. */
  lemma LinkLists(s: ModelState, a: Handle, b: Handle)
    requires a < |s.arena| && b < |s.arena| && a != b
    ensures var t := Link(s, a, b);
      && t.arena[a] == s.arena[a].(neighbors := s.arena[a].neighbors + [b])
      && t.arena[b] == s.arena[b].(neighbors := s.arena[b].neighbors + [a])
      && forall g :: 0 <= g < |s.arena| && g != a && g != b ==> t.arena[g] == s.arena[g]
  {
  }

  lemma UnlinkLists(s: ModelState, a: Handle, b: Handle)
    requires a < |s.arena| && b < |s.arena| && a != b
    ensures var t := Unlink(s, a, b);
      && t.arena[a] == s.arena[a].(neighbors := RemoveFirst(s.arena[a].neighbors, b))
      && t.arena[b] == s.arena[b].(neighbors := RemoveFirst(s.arena[b].neighbors, a))
      && forall g :: 0 <= g < |s.arena| && g != a && g != b ==> t.arena[g] == s.arena[g]
  {
  }

  /** t differs from s in neighbour lists only. */
  ghost predicate SameExceptNeighbors(s: ModelState, t: ModelState) {
    && |t.arena| == |s.arena|
    && t.(arena := s.arena) == s
    && forall g :: 0 <= g < |s.arena| ==> t.arena[g] == s.arena[g].(neighbors := t.arena[g].neighbors)
  }

  /** Editing neighbour lists only keeps the model invariant as long as adjacency stays
      symmetric and simple and stays among the points of the model. */
  lemma NeighborEditValid(s: ModelState, hs: seq<Handle>, t: ModelState)
    requires Valid(s, hs) && SameExceptNeighbors(s, t)
    requires WellFormed(t) && Symmetric(t) && SimpleLists(t) && NeighborsLive(t)
    ensures Valid(t, hs)
  {
    SkeletonKeeps(s, t, hs);
    assert forall g :: 0 <= g < |s.arena| ==> t.arena[g].features == s.arena[g].features && t.arena[g].flags == s.arena[g].flags;
    assert PointsShaped(t);
    SkeletonValid(s, hs, t);
  }

  /** Linking two points that are not yet linked keeps adjacency symmetric, simple and
      within the arena, and touches neighbour lists only. */
  lemma LinkSimple(s: ModelState, a: Handle, b: Handle)
    requires WellFormed(s) && Symmetric(s) && SimpleLists(s)
    requires a < |s.arena| && b < |s.arena| && a != b
    requires b !in s.arena[a].neighbors
    ensures var t := Link(s, a, b);
      WellFormed(t) && Symmetric(t) && SimpleLists(t) && SameExceptNeighbors(s, t)
  {
    var t := Link(s, a, b);
    LinkLists(s, a, b);
    assert a !in s.arena[b].neighbors;
    LinkSymmetric(s, t, a, b);
    forall x | 0 <= x < |t.arena| ensures NoDup(t.arena[x].neighbors) && x !in t.arena[x].neighbors {
      assert NoDup(s.arena[x].neighbors) && x !in s.arena[x].neighbors;
    }
    forall x | 0 <= x < |t.arena| ensures PointOk(t, t.arena[x]) {
      assert PointOk(s, s.arena[x]);
    }
  }

  lemma LinkSymmetric(s: ModelState, t: ModelState, a: Handle, b: Handle)
    requires Symmetric(s) && a < |s.arena| && b < |s.arena| && a != b && |t.arena| == |s.arena|
    requires t.arena[a].neighbors == s.arena[a].neighbors + [b]
    requires t.arena[b].neighbors == s.arena[b].neighbors + [a]
    requires forall g :: 0 <= g < |s.arena| && g != a && g != b ==> t.arena[g] == s.arena[g]
    ensures Symmetric(t)
  {
    forall x, y | 0 <= x < |t.arena| && 0 <= y < |t.arena|
      ensures y in t.arena[x].neighbors <==> x in t.arena[y].neighbors
    {
      assert y in s.arena[x].neighbors <==> x in s.arena[y].neighbors;
    }
  }

  /** In a valid model AddNeighbor of two points of the model keeps the invariant, and
      afterwards the two are neighbours of each other unless they are the same point. */
  lemma AddNeighborValid(s: ModelState, hs: seq<Handle>, a: Handle, b: Handle)
    requires Valid(s, hs) && Live(s, a) && Live(s, b)
    ensures var t := AddNeighbor(s, Some(a), Some(b)).value;
      && Valid(t, hs)
      && (a != b ==> b in t.arena[a].neighbors && a in t.arena[b].neighbors)
  {
    var t := AddNeighbor(s, Some(a), Some(b)).value;
    var ns := s.arena[a].neighbors;
    assert PointOk(s, s.arena[a]);
    if s.arena[a].id == s.arena[b].id {
      assert a == b;
    } else if IsPointInNeighbors(s, Some(a), s.arena[b].id) == Ok(true) {
      var j :| 0 <= j < |ns| && s.arena[ns[j]].id == s.arena[b].id;
      assert Live(s, ns[j]);
      assert ns[j] == b;
    } else {
      assert b !in ns;
      LinkSimple(s, a, b);
      LinkLists(s, a, b);
      assert t == Link(s, a, b);
      LinkNeighborsLive(s, a, b);
      NeighborEditValid(s, hs, t);
    }
  }

  /** Linking two points of the model keeps neighbours among the points of the model. */
  lemma LinkNeighborsLive(s: ModelState, a: Handle, b: Handle)
    requires NeighborsLive(s) && Live(s, a) && Live(s, b) && a != b
    ensures NeighborsLive(Link(s, a, b))
  {
    var t := Link(s, a, b);
    LinkLists(s, a, b);
    assert forall g :: Live(t, g) <==> Live(s, g);
    forall x: Handle, j | Live(t, x) && 0 <= j < |t.arena[x].neighbors|
      ensures Live(t, t.arena[x].neighbors[j])
    {
      if x != a && x != b {
        assert t.arena[x] == s.arena[x];
      } else if j < |s.arena[x].neighbors| {
        assert t.arena[x].neighbors[j] == s.arena[x].neighbors[j];
      }
    }
  }

  /** Unlinking keeps adjacency symmetric, simple and within the arena, touches
      neighbour lists only, and leaves the two points unlinked. */
  lemma UnlinkSimple(s: ModelState, a: Handle, b: Handle)
    requires WellFormed(s) && Symmetric(s) && SimpleLists(s)
    requires a < |s.arena| && b < |s.arena|
    ensures var t := Unlink(s, a, b);
      && WellFormed(t) && Symmetric(t) && SimpleLists(t) && SameExceptNeighbors(s, t)
      && b !in t.arena[a].neighbors && a !in t.arena[b].neighbors
      && forall x, j :: 0 <= x < |t.arena| && 0 <= j < |t.arena[x].neighbors| ==>
           t.arena[x].neighbors[j] in s.arena[x].neighbors
  {
    var t := Unlink(s, a, b);
    RemoveFirstFacts(s.arena[a].neighbors, b);
    RemoveFirstFacts(s.arena[b].neighbors, a);
    if a == b {
      assert a !in s.arena[a].neighbors;
      assert t == s;
    } else {
      UnlinkLists(s, a, b);
      UnlinkSymmetric(s, t, a, b);
      forall x | 0 <= x < |t.arena| ensures NoDup(t.arena[x].neighbors) && x !in t.arena[x].neighbors {
        assert NoDup(s.arena[x].neighbors) && x !in s.arena[x].neighbors;
      }
      forall x | 0 <= x < |t.arena|
        ensures PointOk(t, t.arena[x])
        ensures forall j :: 0 <= j < |t.arena[x].neighbors| ==> t.arena[x].neighbors[j] in s.arena[x].neighbors
      {
        assert PointOk(s, s.arena[x]);
      }
    }
  }

  lemma UnlinkSymmetric(s: ModelState, t: ModelState, a: Handle, b: Handle)
    requires Symmetric(s) && a < |s.arena| && b < |s.arena| && a != b && |t.arena| == |s.arena|
    requires NoDup(s.arena[a].neighbors) && NoDup(s.arena[b].neighbors)
    requires t.arena[a].neighbors == RemoveFirst(s.arena[a].neighbors, b)
    requires t.arena[b].neighbors == RemoveFirst(s.arena[b].neighbors, a)
    requires forall g :: 0 <= g < |s.arena| && g != a && g != b ==> t.arena[g] == s.arena[g]
    ensures Symmetric(t)
  {
    RemoveFirstFacts(s.arena[a].neighbors, b);
    RemoveFirstFacts(s.arena[b].neighbors, a);
    forall x, y | 0 <= x < |t.arena| && 0 <= y < |t.arena|
      ensures y in t.arena[x].neighbors <==> x in t.arena[y].neighbors
    {
      assert y in s.arena[x].neighbors <==> x in s.arena[y].neighbors;
    }
  }

  /** In a valid model RemoveNeighbor keeps the invariant, even for a cursor left on a
      point already removed from the model, and afterwards the two are not neighbours. */
  lemma RemoveNeighborValid(s: ModelState, hs: seq<Handle>, a: Handle, b: Handle)
    requires Valid(s, hs) && a < |s.arena| && b < |s.arena|
    ensures var t := RemoveNeighbor(s, Some(a), Some(b)).value;
      && Valid(t, hs) && b !in t.arena[a].neighbors && a !in t.arena[b].neighbors
  {
    var t := Unlink(s, a, b);
    UnlinkSimple(s, a, b);
    UnlinkNeighborsLive(s, t);
    NeighborEditValid(s, hs, t);
  }

  /** Shrinking neighbour lists keeps neighbours among the points of the model. */
  lemma UnlinkNeighborsLive(s: ModelState, t: ModelState)
    requires NeighborsLive(s) && SameExceptNeighbors(s, t)
    requires forall x, j :: 0 <= x < |t.arena| && 0 <= j < |t.arena[x].neighbors| ==>
      t.arena[x].neighbors[j] in s.arena[x].neighbors
    ensures NeighborsLive(t)
  {
    assert forall g :: 0 <= g < |s.arena| ==> t.arena[g].id == s.arena[g].id;
    forall x: Handle, j | Live(t, x) && 0 <= j < |t.arena[x].neighbors|
      ensures Live(t, t.arena[x].neighbors[j])
    {
      var k :| 0 <= k < |s.arena[x].neighbors| && s.arena[x].neighbors[k] == t.arena[x].neighbors[j];
      assert Live(s, x) && Live(s, s.arena[x].neighbors[k]);
    }
  }
}
