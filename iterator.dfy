// Cl3DModelPointIterator as an object: the model it manages never changes, the current
// point m_pActualPoint does. The moves update the cursor field; the attribute, feature,
// flag and neighbour edits update the points of the managed model in place. Each
// method is proved to end as the matching function of Cursors says, and the edits are
// proved to keep the model invariant.

module Iterators {
  import opened Types
  import opened MeshState
  import Cursors
  import Walks
  import opened Model

  /** How an edit whose model function returns the new state ended: in that state on
      success; with the same error, and the model as it was, on failure. */
  ghost predicate Ended(r: Result<()>, f: Result<ModelState>, before: ModelState, after: ModelState) {
    match f
    case Ok(t) => r == Ok(()) && after == t
    case Err(e) => r == Err(e) && after == before
  }

  class PointIterator {
    const model: Mesh
    var actual: Cursor

    /** Cl3DModelPointIterator(model): on the model's first point. */
    constructor (m: Mesh)
      ensures model == m && actual == m.head
    {
      model := m;
      actual := m.head;
    }

    /** Cl3DModelPointIterator(model, point): on the given point. */
    constructor At(m: Mesh, c: Cursor)
      ensures model == m && actual == c
    {
      model := m;
      actual := c;
    }

    /** The cursor refers to a point of the model's arena (a live point, or one removed
        from the model but still reachable through this cursor). */
    ghost predicate OnModel()
      reads this, model
    {
      InArena(model.State(), actual)
    }

    // ----- movement ---------------------------------------------------------------

    /** MoveToPoint: jump to the point with the given ID through the ID map. */
    method MoveToPoint(id: u32) returns (moved: bool)
      modifies this`actual
      ensures (moved, actual) == Cursors.MoveToPoint(model.State(), old(actual), id)
      ensures WellFormed(model.State()) && old(OnModel()) ==> OnModel()
    {
      if actual.None? {
        return false;
      }
      if id in model.index {
        actual := Some(model.index[id]);
        return true;
      }
      return false;
    }

    /** MoveToNext: follow the point's successor; past the tail the cursor is invalid. */
    method MoveToNext() returns (moved: bool)
      requires OnModel()
      modifies this`actual
      ensures (moved, actual) == Cursors.MoveToNext(model.State(), old(actual))
      ensures WellFormed(model.State()) ==> OnModel()
    {
      if actual.None? {
        return false;
      }
      assert PointOk(model.State(), model.arena[actual.value]) || !WellFormed(model.State());
      actual := model.arena[actual.value].next;
      moved := actual.Some?;
    }

    /** MoveToPrevious: follow the point's predecessor; at the head it stays put. */
    method MoveToPrevious() returns (moved: bool)
      requires OnModel()
      modifies this`actual
      ensures (moved, actual) == Cursors.MoveToPrevious(model.State(), old(actual))
      ensures WellFormed(model.State()) ==> OnModel()
    {
      if actual.None? || model.arena[actual.value].prev.None? {
        return false;
      }
      assert PointOk(model.State(), model.arena[actual.value]) || !WellFormed(model.State());
      actual := model.arena[actual.value].prev;
      moved := true;
    }

    /** CopyIterator: a new iterator on the same model and point. */
    method CopyIterator() returns (r: Result<PointIterator>)
      ensures r.Err? <==> actual.None?
      ensures r.Err? ==> r.error == InvalidCursor
      ensures r.Ok? ==> fresh(r.value) && r.value.model == model && r.value.actual == actual
    {
      if actual.None? {
        return Err(InvalidCursor);
      }
      var it := new PointIterator.At(model, actual);
      r := Ok(it);
    }

    // ----- lookups ------------------------------------------------------------------

    /** IsLabeled: the first label in table order bound to a point with this point's ID. */
    method IsLabeled() returns (r: Result<Option<string>>)
      requires OnModel() && Cursors.TargetsOk(model.State(), model.landmarks)
      ensures r == Cursors.IsLabeled(model.State(), actual)
    {
      if actual.None? {
        return Err(InvalidCursor);
      }
      r := Walks.FindLabel(model.landmarks, model.arena, model.arena[actual.value].id, model.State());
    }

    /** IsPointInNeighbors: whether a neighbour carries the ID. */
    method IsPointInNeighbors(id: u32) returns (r: Result<bool>)
      requires OnModel() && WellFormed(model.State())
      ensures r == Cursors.IsPointInNeighbors(model.State(), actual, id)
    {
      if actual.None? {
        return Err(InvalidCursor);
      }
      assert PointOk(model.State(), model.arena[actual.value]);
      var found := Walks.ScanNeighbors(model.arena, model.arena[actual.value].neighbors, id, model.State());
      r := Ok(found);
    }

    /** GetListOfNeighbors: one cursor per neighbour, in list order. */
    method GetListOfNeighbors() returns (r: Result<seq<Cursor>>)
      requires OnModel()
      ensures r == Cursors.GetListOfNeighbors(model.State(), actual)
    {
      if actual.None? {
        return Err(InvalidCursor);
      }
      var ns := Walks.NeighborCursors(model.arena[actual.value].neighbors);
      assert ns == Cursors.GetListOfNeighbors(model.State(), actual).value;
      r := Ok(ns);
    }

    /** GetListOfSpecificValues: the stored feature names in enumeration order. */
    method GetListOfSpecificValues() returns (r: Result<seq<string>>)
      requires OnModel()
      ensures r == Cursors.GetListOfSpecificValues(model.State(), actual)
    {
      if actual.None? {
        return Err(InvalidCursor);
      }
      var names := Walks.FeatureNames(model.arena[actual.value].features);
      r := Ok(names);
    }

    // ----- edits of the current point -----------------------------------------------

    /** The X, Y, Z, U and V setters. */
    method SetSingle(f: Cursors.SingleField, v: Single) returns (r: Result<()>)
      requires OnModel()
      modifies model`arena
      ensures Ended(r, Cursors.SetSingle(old(model.State()), actual, f, v), old(model.State()), model.State())
      ensures old(model.Inv()) ==> model.Inv()
    {
      if actual.None? {
        return Err(InvalidCursor);
      }
      ghost var s := model.State();
      var h := actual.value;
      model.arena := model.arena[h := Cursors.WithSingle(model.arena[h], f, v)];
      r := Ok(());
      if Valid(s, model.chain) {
        Cursors.SettersValid(s, model.chain, actual, f, v, Cursors.RangeImageX, 0);
      }
    }

    /** AddSpecificValue: store a feature value, replacing an earlier one. */
    method AddSpecificValue(name: string, value: Double) returns (r: Result<()>)
      requires OnModel()
      modifies model`arena
      ensures Ended(r, Cursors.AddSpecificValue(old(model.State()), actual, name, value), old(model.State()), model.State())
      ensures old(model.Inv()) ==> model.Inv()
    {
      if actual.None? {
        return Err(InvalidCursor);
      }
      ghost var s := model.State();
      var h := actual.value;
      model.arena := model.arena[h := model.arena[h].(features := Assoc.Put(model.arena[h].features, name, value))];
      r := Ok(());
      if Valid(s, model.chain) {
        Cursors.FeatureEditsValid(s, model.chain, actual, name, value);
      }
    }

    /** RemoveSpecificValue: drop a feature; a missing one is no error. */
    method RemoveSpecificValue(name: string) returns (r: Result<()>)
      requires OnModel()
      modifies model`arena
      ensures Ended(r, Cursors.RemoveSpecificValue(old(model.State()), actual, name), old(model.State()), model.State())
      ensures old(model.Inv()) ==> model.Inv()
    {
      if actual.None? {
        return Err(InvalidCursor);
      }
      ghost var s := model.State();
      var h := actual.value;
      model.arena := model.arena[h := model.arena[h].(features := Assoc.Remove(model.arena[h].features, name))];
      r := Ok(());
      if Valid(s, model.chain) {
        Cursors.FeatureEditsValid(s, model.chain, actual, name, Double(0));
      }
    }

    /** SetFlag: indices past the eight flags are ignored. */
    method SetFlag(which: u32, val: bool) returns (r: Result<()>)
      requires OnModel()
      modifies model`arena
      ensures Ended(r, Cursors.SetFlag(old(model.State()), actual, which, val), old(model.State()), model.State())
      ensures old(model.Inv()) ==> model.Inv()
    {
      if actual.None? {
        return Err(InvalidCursor);
      }
      ghost var s := model.State();
      var h := actual.value;
      if which < |model.arena[h].flags| {
        model.arena := model.arena[h := model.arena[h].(flags := model.arena[h].flags[which := val])];
      }
      r := Ok(());
      if Valid(s, model.chain) {
        Cursors.SetFlagValid(s, model.chain, actual, which, val);
      }
    }

    // ----- neighbours -----------------------------------------------------------------

    /** AddNeighbor: link the current point and the other iterator's point both ways,
        unless they carry the same ID or are already linked. */
    method AddNeighbor(other: PointIterator) returns (r: Result<()>)
      requires other.model == model && OnModel() && other.OnModel() && WellFormed(model.State())
      modifies model`arena
      ensures Ended(r, Cursors.AddNeighbor(old(model.State()), actual, other.actual), old(model.State()), model.State())
      ensures r.Ok? && old(model.Inv()) && Live(old(model.State()), actual.value) && Live(old(model.State()), other.actual.value)
        ==> model.Inv()
    {
      ghost var s := model.State();
      r := Connect(other);
      if r.Ok? && Valid(s, model.chain) && Live(s, actual.value) && Live(s, other.actual.value) {
        Cursors.AddNeighborValid(s, model.chain, actual.value, other.actual.value);
      }
    }

    /** The body of AddNeighbor: the duplicate checks, then the two list appends. */
    method Connect(other: PointIterator) returns (r: Result<()>)
      requires other.model == model && OnModel() && other.OnModel() && WellFormed(model.State())
      modifies model`arena
      ensures Ended(r, Cursors.AddNeighbor(old(model.State()), actual, other.actual), old(model.State()), model.State())
    {
      if actual.None? || other.actual.None? {
        return Err(InvalidCursor);
      }
      ghost var s := model.State();
      var a, b := actual.value, other.actual.value;
      var points := model.arena;
      if points[b].id == points[a].id {
        return Ok(());
      }
      assert PointOk(s, points[a]);
      var linked := Walks.ScanNeighbors(points, points[a].neighbors, points[b].id, s);
      if linked {
        return Ok(());
      }
      points := points[a := points[a].(neighbors := points[a].neighbors + [b])];
      points := points[b := points[b].(neighbors := points[b].neighbors + [a])];
      model.arena := points;
      r := Ok(());
    }

    /** RemoveNeighbor: unlink the two points both ways (first occurrences). */
    method RemoveNeighbor(other: PointIterator) returns (r: Result<()>)
      requires other.model == model && OnModel() && other.OnModel()
      modifies model`arena
      ensures Ended(r, Cursors.RemoveNeighbor(old(model.State()), actual, other.actual), old(model.State()), model.State())
      ensures old(model.Inv()) ==> model.Inv()
    {
      if actual.None? {
        return Err(InvalidCursor);
      }
      if other.actual.None? {
        return Err(NullReference);
      }
      ghost var s := model.State();
      var a, b := actual.value, other.actual.value;
      var points := model.arena;
      points := points[a := points[a].(neighbors := RemoveFirst(points[a].neighbors, b))];
      points := points[b := points[b].(neighbors := RemoveFirst(points[b].neighbors, a))];
      model.arena := points;
      r := Ok(());
      if Valid(s, model.chain) {
        Cursors.RemoveNeighborValid(s, model.chain, a, b);
      }
    }
  }
}
