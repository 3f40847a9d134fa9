// Cl3DModel as an object: its fields are updated in place by the methods below, each
// of which is proved to leave the state the matching function of Lifecycle, Resets,
// Removal, Cursors or Loading describes. The ghost field `chain` is the list of
// points from the head, which those functions take as their second argument.

module Model {
  import opened Types
  import opened MeshState
  import Assoc
  import Codec
  import Cursors
  import Labels
  import Lifecycle
  import Removal
  import Resets
  import Walks

  class Mesh {
    var arena: seq<PointRec>
    var index: map<u32, Handle>                      // m_dPointsInTheModel
    var head: Option<Handle>                         // m_pFirstPointInModel
    var landmarks: Assoc.Dict<string, Option<Handle>> // m_dSpecificPoints
    var count: u32                                   // m_uPointsCount
    var nextId: u32                                  // m_NextPointId
    var version: u32                                 // m_ModelVersion
    var path: string                                 // m_sModelPath
    var modelType: string                            // m_sModelType
    var expression: string                           // m_sExpression
    var history: seq<string>                         // m_ListOfPreviousProcessingAlgorithms
    var changed: bool                                // m_bModelHasChanged
    ghost var chain: seq<Handle>

    function State(): ModelState
      reads this`arena, this`index, this`head, this`landmarks, this`count, this`nextId
      reads this`version, this`path, this`modelType, this`expression, this`history, this`changed
    {
      ModelState(arena, index, head, landmarks, count, nextId, version, path, modelType, expression, history, changed)
    }

    ghost predicate Inv()
      reads this
    {
      Valid(State(), chain)
    }

    /** Cl3DModel(): an empty model. */
    constructor ()
      ensures State() == Empty() && chain == [] && Inv()
    {
      arena, index, head, landmarks := [], map[], None, [];
      count, nextId, version := 0, 0, 0;
      path, modelType, expression := Unknown, Unknown, Unknown;
      history, changed := [], true;
      chain := [];
    }

    // ----- adding points ------------------------------------------------------------

    /** AddPointToModel(x, y, z, id). */
    method AddPointWithId(x: Single, y: Single, z: Single, id: u32) returns (r: Result<Handle>)
      requires Inv()
      modifies this
      ensures Effect(r, State()) == Lifecycle.AddPointWithId(old(State()), x, y, z, id)
      ensures chain == (if r.Ok? then [r.value] + old(chain) else old(chain))
      ensures old(|index|) < TWO32 - 1 ==> Inv()
    {
      ghost var s, hs := State(), chain;
      if id in index {
        return Err(DuplicateId);
      }
      r := Insert(x, y, z, id);
      if |s.index| < TWO32 - 1 {
        Lifecycle.AddPointValid(s, hs, x, y, z, id);
      }
    }

    /** The body of AddPointToModel(x, y, z, id) past the duplicate check: the new
        point goes in front of the chain. */
    method Insert(x: Single, y: Single, z: Single, id: u32) returns (r: Result<Handle>)
      requires HandleOk(State(), head) && id !in index
      modifies this`arena, this`index, this`head, this`nextId, this`count, this`chain
      ensures Effect(r, State()) == Lifecycle.AddPointWithId(old(State()), x, y, z, id)
      ensures r.Ok? && chain == [r.value] + old(chain)
    {
      var h := |arena|;
      var p := NewPoint(id, x, y, z).(next := head);
      index := index[id := h];
      if head.Some? {
        arena := arena[head.value := arena[head.value].(prev := Some(h))];
      }
      arena := arena + [p];
      head := Some(h);
      if nextId <= id {
        nextId := Inc32(id);
      }
      count := Inc32(count);
      chain := [h] + chain;
      r := Ok(h);
    }

    /** AddPointToModel(x, y, z): the ID counter supplies the ID. */
    method AddPoint(x: Single, y: Single, z: Single) returns (r: Result<Handle>)
      requires Inv()
      modifies this
      ensures Effect(r, State()) == Lifecycle.AddPoint(old(State()), x, y, z)
      ensures chain == (if r.Ok? then [r.value] + old(chain) else old(chain))
      ensures old(|index|) < TWO32 - 1 ==> Inv()
    {
      if IsNaN(x) || IsNaN(y) || IsNaN(z) {
        return Err(MalformedCoordinate);
      }
      var id := nextId;
      nextId := Inc32(nextId);
      CounterValid(old(State()), chain, nextId);
      r := AddPointWithId(x, y, z, id);
    }

    /** AddPointToModel(x, y, z, rangeX, rangeY, id). */
    method AddPointWithRangeAndId(x: Single, y: Single, z: Single, rx: i32, ry: i32, id: u32) returns (r: Result<Handle>)
      requires Inv()
      modifies this
      ensures Effect(r, State()) == Lifecycle.AddPointWithRangeAndId(old(State()), x, y, z, rx, ry, id)
      ensures chain == (if r.Ok? then [r.value] + old(chain) else old(chain))
      ensures old(|index|) < TWO32 - 1 ==> Inv()
    {
      r := AddPointWithId(x, y, z, id);
      if r.Ok? {
        var h := r.value;
        ghost var t := State();
        arena := arena[h := arena[h].(rangeX := rx, rangeY := ry)];
        if old(|index|) < TWO32 - 1 {
          Cursors.AttributeUpdateValid(t, chain, h, t.arena[h].(rangeX := rx, rangeY := ry));
        }
      }
    }

    /** AddPointToModel(x, y, z, rangeX, rangeY): the ID counter supplies the ID, and
        no coordinate is checked for NaN. */
    method AddPointWithRange(x: Single, y: Single, z: Single, rx: i32, ry: i32) returns (r: Result<Handle>)
      requires Inv()
      modifies this
      ensures Effect(r, State()) == Lifecycle.AddPointWithRange(old(State()), x, y, z, rx, ry)
      ensures chain == (if r.Ok? then [r.value] + old(chain) else old(chain))
      ensures old(|index|) < TWO32 - 1 ==> Inv()
    {
      var id := nextId;
      nextId := Inc32(nextId);
      CounterValid(old(State()), chain, nextId);
      r := AddPointWithRangeAndId(x, y, z, rx, ry, id);
    }

    // ----- removing a point ----------------------------------------------------------

    /** RemovePointFromModel(c), as evidently intended (every label bound to the point is
        dropped). An empty model or an invalid cursor changes nothing and returns an
        invalid cursor; a null label binding throws before anything changes. Otherwise
        the passed cursor becomes invalid, the returned one stands on the removed
        point's successor, and a point of the model leaves the chain and the model
        stays valid. */
    method RemovePointFromModel(c: Cursor) returns (r: Result<(Cursor, Cursor)>)
      requires Inv() && InArena(State(), c)
      modifies this
      ensures Effect(r, State()) == Removal.RemovePoint(old(State()), c)
      ensures c.Some? && c.value in old(chain) ==>
                Inv() &&
                exists k :: 0 <= k < |old(chain)| && old(chain)[k] == c.value && chain == old(chain)[..k] + old(chain)[k + 1..]
    {
      ghost var s, hs := State(), chain;
      ghost var k: nat := 0;
      ghost var rest := hs;
      if c.Some? && c.value in hs {
        k :| 0 <= k < |hs| && hs[k] == c.value;
        rest := hs[..k] + hs[k + 1..];
      }
      r := Remove(c);
      Rechain(rest);
      if c.Some? && c.value in hs {
        RemovedValid(s, hs, k);
        assert old(chain)[k] == c.value;
      }
    }

    /** RemovePointFromModel on the fields, with the label loop run first. */
    method Remove(c: Cursor) returns (r: Result<(Cursor, Cursor)>)
      requires WellFormed(State()) && InArena(State(), c)
      modifies this`landmarks, this`arena, this`head, this`index, this`count
      ensures Effect(r, State()) == Removal.RemovePoint(old(State()), c)
    {
      ghost var s := State();
      if head.None? || c.None? {
        r := Ok((c, None));
      } else {
        var p := c.value;
        var id := arena[p].id;
        var kept := Walks.KeptLabels(landmarks, arena, id, s);
        if kept.Err? {
          r := Err(kept.error);
        } else {
          Removal.DropLabelsFacts(s, s.landmarks, id);
          ghost var s1 := s.(landmarks := kept.value);
          var next := Excise(p, kept.value, s1);
          r := Ok((None, next));
          UnchainKeeps(s1, p);
          assert State() == Removal.Unchain(s1, p);
          RemovedIs(s, p);
        }
      }
    }

    /** The chain after a removal. */
    ghost method Rechain(rest: seq<Handle>)
      modifies this`chain
      ensures chain == rest
    {
      chain := rest;
    }

    /** The state changes of RemovePointFromModel once the labels to keep are known. */
    method Excise(p: Handle, kept: Assoc.Dict<string, Option<Handle>>, ghost s: ModelState) returns (next: Cursor)
      requires arena == s.arena && head == s.head && index == s.index && count == s.count && s.landmarks == kept
      requires WellFormed(s) && p < |arena| && head.Some?
      modifies this`landmarks, this`arena, this`head, this`index, this`count
      ensures var t := Removal.Unchain(s, p);
        && landmarks == t.landmarks && arena == t.arena && head == t.head && index == t.index && count == t.count
        && next == t.arena[p].next
    {
      var id := arena[p].id;
      landmarks := kept;
      arena, head := Walks.Unthread(arena, head, p, s);
      index := index - {id};
      count := Dec32(count);
      next := arena[p].next;
    }

    // ----- landmarks -----------------------------------------------------------------

    /** AddSpecificPoint, with the iterator checked before the table is touched (the
        order the source evidently intends): the label is bound to the iterator's point,
        replacing an earlier binding of the same label. */
    method AddSpecificPoint(name: string, arg: Labels.IteratorArg) returns (r: Result<()>)
      requires Inv() && (arg.Some? ==> InArena(State(), arg.value))
      modifies this`landmarks
      ensures Effect(r, State()) == Labels.AddSpecificPoint(old(State()), name, arg)
      ensures r.Err? || Live(old(State()), arg.value.value) ==> Inv()
    {
      ghost var s := State();
      if arg.None? {
        return Err(NullReference);
      }
      if arg.value.None? {
        return Err(InvalidCursor);
      }
      landmarks := Assoc.Put(landmarks, name, arg.value);
      r := Ok(());
      if Live(s, arg.value.value) {
        Labels.AddSpecificPointValid(s, chain, name, arg.value.value);
      }
    }

    /** RemoveAllSpecificPoints: the table is emptied. */
    method RemoveAllSpecificPoints()
      requires Inv()
      modifies this`landmarks
      ensures State() == Labels.RemoveAllSpecificPoints(old(State()))
      ensures Inv()
    {
      ghost var s := State();
      landmarks := [];
      Labels.RemoveAllValid(s, chain);
    }

    /** IsThisPointInSpecificPoints: the label loop, run only when some label exists. */
    method IsThisPointInSpecificPoints(c: Cursor) returns (r: Result<Option<string>>)
      requires InArena(State(), c) && Cursors.TargetsOk(State(), landmarks)
      ensures r == Cursors.IsThisPointInSpecificPoints(State(), c)
    {
      if landmarks == [] {
        return Ok(None);
      }
      if c.None? {
        return Err(InvalidCursor);
      }
      r := Walks.FindLabel(landmarks, arena, arena[c.value].id, State());
    }

    /** GetAllSpecificPoints: one (label, iterator) pair per entry, in table order. */
    method GetAllSpecificPoints() returns (r: seq<(string, Cursor)>)
      ensures r == Labels.GetAllSpecificPoints(State())
    {
      r := Walks.LabelPairs(landmarks);
    }

    // ----- saving --------------------------------------------------------------------

    /** SaveModel: the tokens the file receives. The header fields, the labels by point
        ID (a label bound to null throws), then every point from the head on as SaveMe
        writes it. The model does not change. */
    method SaveModel() returns (r: Result<seq<Codec.Token>>)
      requires WellFormed(State()) && ChainIs(State(), chain)
      requires Codec.Snapshot(State(), chain).Ok? ==> Codec.Fits(Codec.Snapshot(State(), chain).value)
      ensures r.Err? <==> Codec.Snapshot(State(), chain).Err?
      ensures r.Err? ==> r.error == NullReference
      ensures r.Ok? ==> r.value == Codec.Encode(Codec.Snapshot(State(), chain).value)
    {
      var labels := Walks.SavedLabels(landmarks, arena, State());
      if labels.Err? {
        return Err(NullReference);
      }
      var points := Walks.SavedPoints(arena, head, State(), chain);
      var f := Codec.FileModel(path, modelType, nextId, count, expression, history, labels.value, points);
      assert f == Codec.Snapshot(State(), chain).value;
      r := Ok(Codec.Encode(f));
    }

    // ----- walks along the chain ----------------------------------------------------

    /** ResetVisitedPoints: every point of the model is marked unvisited, and nothing
        else changes. */
    method ResetVisitedPoints()
      requires Inv()
      modifies this
      ensures State() == Resets.ResetVisited(old(State()), old(chain))
      ensures chain == old(chain) && Inv()
    {
      ghost var s, hs := State(), chain;
      if head.None? {
        Walks.NoVisit(s, hs);
        return;
      }
      arena := Walks.ClearVisited(arena, head, s, hs);
      Resets.ResetVisitedValid(s, hs);
    }

    /** ResetColor: every point of the model takes the colour and the model is marked
        changed; a model without points returns at once. */
    method ResetColor(col: Argb)
      requires Inv()
      modifies this
      ensures State() == Resets.ResetColor(old(State()), old(chain), col)
      ensures chain == old(chain) && Inv()
    {
      ghost var s, hs := State(), chain;
      if head.None? {
        return;
      }
      arena := Walks.Paint(arena, head, col, s, hs);
      changed := true;
      Resets.ResetColorValid(s, hs, col);
    }

    /** ResetModel, with the ID map and the count cleared as well: afterwards the model
        is empty and valid. */
    method ResetModel()
      requires Inv()
      modifies this
      ensures State() == Resets.ResetModel(old(State()), old(chain))
      ensures chain == [] && Inv()
    {
      ghost var s, hs := State(), chain;
      ClearPoints();
      ClearHeader();
      ClearedIs(s, hs, arena);
      Resets.ResetModelValid(s, hs);
    }

    /** The fields ResetModel sets back to their initial values. */
    method ClearHeader()
      modifies this`version, this`path, this`modelType, this`changed, this`landmarks
      ensures version == 0 && path == Unknown && modelType == Unknown && changed && landmarks == []
    {
      version, path, modelType, changed := 0, Unknown, Unknown, true;
      landmarks := [];
    }

    /** The points of ResetModel: each point leaves the chain, and the ID map and the
        count are cleared. */
    method ClearPoints()
      requires Chain(arena, chain) && head == (if chain == [] then None else Some(chain[0]))
      modifies this`arena, this`head, this`index, this`count, this`chain
      ensures arena == Resets.Unchained(old(arena), old(chain))
      ensures head == None && index == map[] && count == 0 && chain == []
    {
      var points := Walks.Dismantle(arena, head, chain);
      arena, head := points, None;
      index := map[];
      count := 0;
      chain := [];
    }
  }

  // ----- lemmas for the methods ---------------------------------------------------------

  /** The state Clear leaves, field by field. */
  lemma ClearedIs(s: ModelState, hs: seq<Handle>, b: seq<PointRec>)
    requires b == Resets.Unchained(s.arena, hs)
    ensures Resets.ResetModel(s, hs)
      == ModelState(b, map[], None, [], 0, s.nextId, 0, Unknown, Unknown, s.expression, s.history, true)
  {
  }

  /** The ID counter takes no part in the model invariant. */
  lemma CounterValid(s: ModelState, hs: seq<Handle>, n: u32)
    requires Valid(s, hs)
    ensures Valid(s.(nextId := n), hs)
  {
    var t := s.(nextId := n);
    assert t.arena == s.arena && t.index == s.index && t.head == s.head && t.landmarks == s.landmarks && t.count == s.count;
  }

  /** The removal's steps change the points, the head, the ID map and the count only. */
  lemma UnchainKeeps(s: ModelState, p: Handle)
    requires WellFormed(s) && p < |s.arena| && s.head.Some?
    ensures var t := Removal.Unchain(s, p);
      t == s.(arena := t.arena, head := t.head, index := t.index, count := t.count)
  {
  }

  /** RemovePoint on a valid cursor over a model without null labels, step by step. */
  lemma RemovedIs(s: ModelState, p: Handle)
    requires WellFormed(s) && p < |s.arena| && s.head.Some? && !Removal.HasNullLabel(s.landmarks)
    requires WellFormed(s.(landmarks := Removal.DropLabelsOf(s, s.landmarks, s.arena[p].id)))
    ensures var t := Removal.Unchain(s.(landmarks := Removal.DropLabelsOf(s, s.landmarks, s.arena[p].id)), p);
      Removal.RemovePoint(s, Some(p)) == Effect(Ok((None, t.arena[p].next)), t)
  {
    Removal.DropLabelsFacts(s, s.landmarks, s.arena[p].id);
  }

  /** The removal of a point of the chain keeps the model invariant. */
  lemma RemovedValid(s: ModelState, hs: seq<Handle>, k: nat)
    requires Valid(s, hs) && k < |hs|
    ensures Valid(Removal.RemovePoint(s, Some(hs[k])).post, hs[..k] + hs[k + 1..])
  {
    Removal.RemovePointValid(s, hs, k);
  }
}
