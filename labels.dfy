// The landmark table of Cl3DModel (m_dSpecificPoints): AddSpecificPoint,
// GetSpecificPoint in its two forms, RemoveAllSpecificPoints and GetAllSpecificPoints.
// IsThisPointInSpecificPoints is with the other label scans in the Cursors module.
// The enum overloads pass the label's name (Names.PointLabel) to these.

module Labels {
  import opened Types
  import opened MeshState
  import Assoc
  import Cursors
  import Removal
  import Resets

  /** The iterator passed by the caller: None is a null reference, Some(c) an iterator
      whose current point is c. */
  type IteratorArg = Option<Cursor>

  /** AddSpecificPoint as written: a null iterator throws before anything changes; an
      existing label is replaced in place; the label is bound to the iterator's current
      point, and only afterwards is that point's X read for the diagnostic, which throws
      on an invalid iterator and so leaves the label bound to null. */
  function AddSpecificPointAsWritten(s: ModelState, name: string, arg: IteratorArg): (e: Effect<()>)
    requires arg.Some? ==> InArena(s, arg.value)
    ensures e.out.Err? <==> arg.None? || arg.value.None?
    ensures arg.None? ==> e.post == s
    ensures arg.Some? ==> Assoc.Get(e.post.landmarks, name) == Some(arg.value)
  {
    if arg.None? then Effect(Err(NullReference), s)
    else
      Assoc.PutGet(s.landmarks, name, arg.value, name);
      var t := s.(landmarks := Assoc.Put(s.landmarks, name, arg.value));
      if arg.value.None? then Effect(Err(InvalidCursor), t) else Effect(Ok(()), t)
  }

  /** AddSpecificPoint as evidently intended: the iterator is checked before the table
      is touched, so a failing call changes nothing. */
  function AddSpecificPoint(s: ModelState, name: string, arg: IteratorArg): (e: Effect<()>)
    requires arg.Some? ==> InArena(s, arg.value)
    ensures e.out.Err? ==> e.post == s
    ensures e.out.Ok? <==> arg.Some? && arg.value.Some?
  {
    if arg.None? then Effect(Err(NullReference), s)
    else if arg.value.None? then Effect(Err(InvalidCursor), s)
    else Effect(Ok(()), s.(landmarks := Assoc.Put(s.landmarks, name, arg.value)))
  }

  /** GetSpecificPoint(name, ref point): false for an unknown label; for a known one, an
      iterator on its point, which dereferences the binding and so throws on a null one. */
  function TryGetSpecificPoint(s: ModelState, name: string): (r: Result<Option<Cursor>>)
  {
    match Assoc.Get(s.landmarks, name)
    case None => Ok(None)
    case Some(b) => if b.None? then Err(NullReference) else Ok(Some(b))
  }

  /** GetSpecificPoint(name): the same lookup, an unknown label throwing. */
  function GetSpecificPoint(s: ModelState, name: string): (r: Result<Cursor>)
    ensures r.Ok? <==> TryGetSpecificPoint(s, name).Ok? && TryGetSpecificPoint(s, name).value.Some?
    ensures r.Ok? ==> TryGetSpecificPoint(s, name) == Ok(Some(r.value)) && r.value.Some?
    ensures TryGetSpecificPoint(s, name) == Ok(None) ==> r == Err(NotFound)
  {
    match TryGetSpecificPoint(s, name)
    case Err(e) => Err(e)
    case Ok(None) => Err(NotFound)
    case Ok(Some(c)) => Ok(c)
  }

  /** RemoveAllSpecificPoints. */
  function RemoveAllSpecificPoints(s: ModelState): (t: ModelState)
    ensures forall name :: TryGetSpecificPoint(t, name) == Ok(None)
    ensures t.(landmarks := s.landmarks) == s
  {
    s.(landmarks := [])
  }

  /** GetAllSpecificPoints: the (label, iterator) pairs in table order; an iterator is
      built on a null binding without complaint. */
  function GetAllSpecificPoints(s: ModelState): (r: seq<(string, Cursor)>)
    ensures |r| == |s.landmarks|
    ensures forall i :: 0 <= i < |r| ==> r[i].0 == s.landmarks[i].0 && r[i].1 == s.landmarks[i].1
    ensures Assoc.Unique(s.landmarks) ==> forall i, j :: 0 <= i < j < |r| ==> r[i].0 != r[j].0
    ensures Assoc.Unique(s.landmarks) ==> forall i :: 0 <= i < |r| && r[i].1.Some? ==>
      TryGetSpecificPoint(s, r[i].0) == Ok(Some(r[i].1))
  {
    AllFacts(s);
    s.landmarks
  }

  lemma AllFacts(s: ModelState)
    ensures Assoc.Unique(s.landmarks) ==> forall i :: 0 <= i < |s.landmarks| && s.landmarks[i].1.Some? ==>
      TryGetSpecificPoint(s, s.landmarks[i].0) == Ok(Some(s.landmarks[i].1))
  {
    if Assoc.Unique(s.landmarks) {
      forall i | 0 <= i < |s.landmarks| && s.landmarks[i].1.Some?
        ensures TryGetSpecificPoint(s, s.landmarks[i].0) == Ok(Some(s.landmarks[i].1))
      {
        Assoc.GetAt(s.landmarks, i);
      }
    }
  }

  /** The table is last-writer-wins: after binding a label to a valid iterator, looking
      the label up gives that iterator's point, and every other label is looked up as
      before. */
  lemma AddThenGet(s: ModelState, name: string, c: Cursor, other: string)
    requires InArena(s, c) && c.Some?
    ensures var t := AddSpecificPoint(s, name, Some(c)).post;
      && GetSpecificPoint(t, name) == Ok(c)
      && (other != name ==> TryGetSpecificPoint(t, other) == TryGetSpecificPoint(s, other))
  {
    Assoc.PutGet(s.landmarks, name, c, name);
    Assoc.PutGet(s.landmarks, name, c, other);
  }

  /** Binding a label to a point of the model keeps the model invariant. */
  lemma AddSpecificPointValid(s: ModelState, hs: seq<Handle>, name: string, h: Handle)
    requires Valid(s, hs) && Live(s, h)
    ensures Valid(AddSpecificPoint(s, name, Some(Some(h))).post, hs)
  {
    var t := AddSpecificPoint(s, name, Some(Some(h))).post;
    Assoc.PutEntries(s.landmarks, name, Some(h));
    Assoc.PutUnique(s.landmarks, name, Some(h));
    LabelsOnlyValid(s, hs, t.landmarks);
  }

  /** Clearing the table keeps the model invariant. */
  lemma RemoveAllValid(s: ModelState, hs: seq<Handle>)
    requires Valid(s, hs)
    ensures Valid(RemoveAllSpecificPoints(s), hs)
  {
    LabelsOnlyValid(s, hs, []);
  }

  /** A new table of unique labels bound to points of the model keeps the invariant. */
  lemma LabelsOnlyValid(s: ModelState, hs: seq<Handle>, lm: Assoc.Dict<string, Option<Handle>>)
    requires Valid(s, hs) && Assoc.Unique(lm)
    requires forall i :: 0 <= i < |lm| ==> lm[i] in s.landmarks || (lm[i].1.Some? && Live(s, lm[i].1.value))
    ensures Valid(s.(landmarks := lm), hs)
  {
    LabelsLive(s, s.(landmarks := lm));
  }

  lemma LabelsLive(s: ModelState, t: ModelState)
    requires LandmarksLive(s) && t.arena == s.arena && t.index == s.index
    requires forall i :: 0 <= i < |t.landmarks| ==> t.landmarks[i] in s.landmarks || (t.landmarks[i].1.Some? && Live(s, t.landmarks[i].1.value))
    ensures LandmarksLive(t)
  {
    forall i | 0 <= i < |t.landmarks| ensures t.landmarks[i].1.Some? && Live(t, t.landmarks[i].1.value) {
      if t.landmarks[i] in s.landmarks {
        var j :| 0 <= j < |s.landmarks| && s.landmarks[j] == t.landmarks[i];
      }
    }
  }

  /** A call with an invalid iterator on the one-point model: the source leaves the
      label bound to null, after which looking the label up and removing the point both
      throw; the intended call leaves the model as it was. */
  lemma FailedAddLeavesNullLabel()
    ensures var s := Resets.OnePointModel();
      var e := AddSpecificPointAsWritten(s, "NoseTip", Some(None));
      && e.out == Err(InvalidCursor)
      && !LandmarksLive(e.post)
      && TryGetSpecificPoint(e.post, "NoseTip") == Err(NullReference)
      && WellFormed(e.post)
      && Removal.RemovePoint(e.post, Some(0)).out == Err(NullReference)
      && AddSpecificPoint(s, "NoseTip", Some(None)) == Effect(Err(InvalidCursor), s)
  {
    var s := Resets.OnePointModel();
    var t := AddSpecificPointAsWritten(s, "NoseTip", Some(None)).post;
    assert t.landmarks == [("NoseTip", None)];
    assert Removal.HasNullLabel(t.landmarks) by {
      assert t.landmarks[0].1.None?;
    }
  }
}
