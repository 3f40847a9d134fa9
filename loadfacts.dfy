// What LoadInternalModelType leaves behind when it succeeds on a valid model: a valid
// model whose points are the saved ones, in file order, linked as their neighbour
// lists say and labelled as the saved labels say; and when it throws.

module LoadFacts {
  import opened Types
  import opened MeshState
  import Assoc
  import Cursors
  import Codec
  import Labels
  import opened Loading

  /** Install, one loop after the other. */
  lemma InstallSteps(s: ModelState, d: Codec.Decoded)
    requires WellFormed(s) && Codec.WellDecoded(d) && Install(s, d).Ok?
    ensures var t := Staged(s, d);
      && WellFormed(t)
      && ResolveFrom(t, |s.arena|, d.points, 0).Ok?
      && var u := ResolveFrom(t, |s.arena|, d.points, 0).value;
      && BindLabels(u, d.labels).Ok?
      && Install(s, d).value == u.(landmarks := BindLabels(u, d.labels).value)
  {
    StagedWellFormed(s, d);
  }

  /** A label table bound by ID on a valid model keeps it valid: the saved labels are
      distinct and each is bound to the point of the model carrying its ID. */
  lemma BindValid(u: ModelState, hs: seq<Handle>, ls: Assoc.Dict<string, u32>)
    requires Valid(u, hs) && Assoc.Unique(ls) && BindLabels(u, ls).Ok?
    ensures Valid(u.(landmarks := BindLabels(u, ls).value), hs)
  {
    var lm := BindLabels(u, ls).value;
    forall i | 0 <= i < |lm| ensures lm[i].1.Some? && Live(u, lm[i].1.value) {
      assert u.index[ls[i].1] < |u.arena| && u.arena[u.index[ls[i].1]].id == ls[i].1;
    }
    assert Assoc.Unique(lm) by {
      forall i, j | 0 <= i < j < |lm| ensures lm[i].0 != lm[j].0 {
        assert lm[i].0 == ls[i].0 && lm[j].0 == ls[j].0;
      }
    }
    Labels.LabelsOnlyValid(u, hs, lm);
  }

  /** A successful load into a valid model leaves a valid model whose chain is the
      created objects, in file order. */
  lemma InstallValid(s: ModelState, hs: seq<Handle>, d: Codec.Decoded)
    requires Valid(s, hs) && Codec.WellDecoded(d) && Install(s, d).Ok?
    ensures Valid(Install(s, d).value, Span(|s.arena|, |d.points|))
  {
    InstallSteps(s, d);
    var t, base, ps := Staged(s, d), |s.arena|, d.points;
    var u := ResolveFrom(t, base, ps, 0).value;
    StagedValid(s, hs, d);
    StagedLoaded(s, d);
    LoadedValid(t, Span(base, |ps|), base, ps, u);
    BindValid(u, Span(base, |ps|), d.labels);
  }

  /** The k-th created object carries the k-th saved point's fields and is linked to
      the objects created just before and just after it. */
  lemma InstallPoints(s: ModelState, d: Codec.Decoded)
    requires WellFormed(s) && Codec.WellDecoded(d) && Install(s, d).Ok?
    ensures var t := Install(s, d).value;
      && |t.arena| == |s.arena| + |d.points|
      && PointsAsSaved(t.arena, |s.arena|, d.points)
  {
    InstallSteps(s, d);
    var t, base, ps := Staged(s, d), |s.arena|, d.points;
    var u := ResolveFrom(t, base, ps, 0).value;
    NeighborsOnly(t, u);
    CreatedAsSaved(s.arena, ps);
    assert t.arena == s.arena + CreatedPoints(base, ps);
    AsSavedKept(t, u, base, ps);
    assert Install(s, d).value.arena == u.arena;
  }

  /** The new ID map sends the k-th saved ID to the object created for it, and holds no
      other ID. */
  lemma InstallIndex(s: ModelState, d: Codec.Decoded)
    requires WellFormed(s) && Codec.WellDecoded(d) && Install(s, d).Ok?
    ensures var t := Install(s, d).value;
      && (forall k :: 0 <= k < |d.points| ==>
            d.points[k].id in t.index && t.index[d.points[k].id] == |s.arena| + k)
      && forall id :: id in t.index ==> id in Codec.IdsOf(d.points)
  {
    InstallSteps(s, d);
    var u := ResolveFrom(Staged(s, d), |s.arena|, d.points, 0).value;
    NeighborsOnly(Staged(s, d), u);
    assert forall k :: 0 <= k < |d.points| ==> Codec.IdsOf(d.points)[k] == d.points[k].id;
  }

  /** Two loaded points end up neighbours exactly when they differ and one of them
      lists the other's ID. */
  lemma InstallLinks(s: ModelState, hs: seq<Handle>, d: Codec.Decoded)
    requires Valid(s, hs) && Codec.WellDecoded(d) && Install(s, d).Ok?
    ensures |s.arena| + |d.points| <= |Install(s, d).value.arena|
    ensures LinkedAsSaved(Install(s, d).value.arena, |s.arena|, d.points)
  {
    InstallSteps(s, d);
    var t, base, ps := Staged(s, d), |s.arena|, d.points;
    var u := ResolveFrom(t, base, ps, 0).value;
    StagedValid(s, hs, d);
    StagedLoaded(s, d);
    LoadedLinks(t, base, ps, u);
    assert Install(s, d).value.arena == u.arena;
  }

  /** The k-th saved label is bound to the object created for the point carrying its
      ID, in file order. */
  lemma InstallLabels(s: ModelState, d: Codec.Decoded)
    requires WellFormed(s) && Codec.WellDecoded(d) && Install(s, d).Ok?
    ensures var t := Install(s, d).value;
      && |t.landmarks| == |d.labels|
      && forall i :: 0 <= i < |d.labels| ==>
        d.labels[i].1 in t.index && t.landmarks[i] == (d.labels[i].0, Some(t.index[d.labels[i].1]))
  {
    InstallSteps(s, d);
    var u := ResolveFrom(Staged(s, d), |s.arena|, d.points, 0).value;
    NeighborsOnly(Staged(s, d), u);
  }

  /** The header fields are the ones read; the history read is appended to the one
      held, and a file without an expression keeps the one held. */
  lemma InstallFields(s: ModelState, d: Codec.Decoded)
    requires WellFormed(s) && Codec.WellDecoded(d) && Install(s, d).Ok?
    ensures var t := Install(s, d).value;
      && t.version == d.version && t.modelType == d.modelType && t.nextId == d.nextId
      && t.count == d.count && t.history == s.history + d.history
      && t.expression == (if d.expression.Some? then d.expression.value else s.expression)
      && t.path == s.path && t.changed == s.changed
  {
    InstallSteps(s, d);
    var u := ResolveFrom(Staged(s, d), |s.arena|, d.points, 0).value;
    NeighborsOnly(Staged(s, d), u);
    assert u.(arena := Staged(s, d).arena) == Staged(s, d);
  }

  /** What a successful load leaves after the objects s held: the saved points in file
      order, linked as their lists say, found under their IDs, the labels bound by ID,
      and the header fields read. */
  ghost predicate Installed(s: ModelState, d: Codec.Decoded, t: ModelState) {
    && |t.arena| == |s.arena| + |d.points|
    && PointsAsSaved(t.arena, |s.arena|, d.points)
    && LinkedAsSaved(t.arena, |s.arena|, d.points)
    && (forall k :: 0 <= k < |d.points| ==>
          d.points[k].id in t.index && t.index[d.points[k].id] == |s.arena| + k)
    && |t.landmarks| == |d.labels|
    && (forall i :: 0 <= i < |d.labels| ==>
          d.labels[i].1 in t.index && t.landmarks[i] == (d.labels[i].0, Some(t.index[d.labels[i].1])))
    && t.version == d.version && t.modelType == d.modelType && t.nextId == d.nextId
    && t.count == d.count && t.history == s.history + d.history
    && t.expression == (if d.expression.Some? then d.expression.value else s.expression)
    && t.path == s.path
  }

  /** A successful load into a valid model, all of it. */
  lemma InstallFacts(s: ModelState, hs: seq<Handle>, d: Codec.Decoded)
    requires Valid(s, hs) && Codec.WellDecoded(d) && Install(s, d).Ok?
    ensures Installed(s, d, Install(s, d).value)
    ensures Valid(Install(s, d).value, Span(|s.arena|, |d.points|))
  {
    InstallPoints(s, d);
    InstallLinks(s, hs, d);
    InstallIndex(s, d);
    InstallLabels(s, d);
    InstallFields(s, d);
    InstallValid(s, hs, d);
  }

  /** Every ID a saved neighbour list names is carried by a saved point. */
  ghost predicate NeighborsKnown(ps: seq<Codec.PointFile>) {
    forall j, i :: 0 <= j < |ps| && 0 <= i < |ps[j].neighbors| ==> ps[j].neighbors[i] in Codec.IdsOf(ps)
  }

  /** Every ID a saved label names is carried by a saved point. */
  ghost predicate LabelsKnown(ls: Assoc.Dict<string, u32>, ps: seq<Codec.PointFile>) {
    forall i :: 0 <= i < |ls| ==> ls[i].1 in Codec.IdsOf(ps)
  }

  /** The new ID map holds exactly the saved IDs. */
  lemma StagedKeys(s: ModelState, d: Codec.Decoded)
    requires Codec.WellDecoded(d)
    ensures forall id :: id in Staged(s, d).index <==> id in Codec.IdsOf(d.points)
  {
    var ids := Codec.IdsOf(d.points);
    var m := Registered(|s.arena|, ids);
    assert Staged(s, d).index == m;
    forall id ensures id in m <==> id in ids {
      if id in ids {
        var k :| 0 <= k < |ids| && ids[k] == id;
      }
    }
  }

  /** The neighbour loops on the staged model throw exactly when a saved neighbour
      list names an unknown ID. */
  lemma StagedResolveOk(s: ModelState, d: Codec.Decoded)
    requires WellFormed(s) && Codec.WellDecoded(d)
    ensures WellFormed(Staged(s, d))
    ensures ResolveFrom(Staged(s, d), |s.arena|, d.points, 0).Ok? <==> NeighborsKnown(d.points)
  {
    StagedWellFormed(s, d);
    StagedKeys(s, d);
    ResolveFromOk(Staged(s, d), |s.arena|, d.points, 0);
  }

  /** The label loop over an ID map holding exactly the saved IDs throws exactly when a
      label names an unknown ID, and then with NotFound. */
  lemma BindOk(u: ModelState, ps: seq<Codec.PointFile>, ls: Assoc.Dict<string, u32>)
    requires Assoc.Unique(ls) && forall id :: id in u.index <==> id in Codec.IdsOf(ps)
    ensures BindLabels(u, ls).Ok? <==> LabelsKnown(ls, ps)
    ensures BindLabels(u, ls).Err? ==> BindLabels(u, ls).error == NotFound
  {
  }

  /** Loading throws exactly when a neighbour list or a label names an ID that no
      saved point carries, and then with NotFound. */
  lemma InstallOk(s: ModelState, d: Codec.Decoded)
    requires WellFormed(s) && Codec.WellDecoded(d)
    ensures Install(s, d).Ok? <==> NeighborsKnown(d.points) && LabelsKnown(d.labels, d.points)
    ensures Install(s, d).Err? ==> Install(s, d).error == NotFound
  {
    StagedResolveOk(s, d);
    var t := Staged(s, d);
    var r := ResolveFrom(t, |s.arena|, d.points, 0);
    if r.Ok? {
      NeighborsOnly(t, r.value);
      StagedKeys(s, d);
      BindOk(r.value, d.points, d.labels);
    }
  }

  /** As written, loading a file without points into a model that holds points keeps
      the old first point while the new ID map is empty: no chain fits the result, so
      iterating it visits objects the model no longer counts. */
  lemma EmptyFileKeepsOldHead(s: ModelState, hs: seq<Handle>, d: Codec.Decoded)
    requires Valid(s, hs) && hs != [] && Codec.WellDecoded(d) && d.points == [] && d.labels == []
    ensures InstallAsWritten(s, d).Ok?
    ensures var t := InstallAsWritten(s, d).value;
      t.head == s.head && t.head.Some? && t.index == map[] && forall cs :: !Valid(t, cs)
  {
    StagedWellFormed(s, d);
    var t := InstallAsWritten(s, d).value;
  }

  /** Corrected, the same load leaves the empty model, which is valid. */
  lemma EmptyFileEmptiesModel(s: ModelState, hs: seq<Handle>, d: Codec.Decoded)
    requires Valid(s, hs) && Codec.WellDecoded(d) && d.points == [] && d.labels == []
    ensures Install(s, d).Ok?
    ensures var t := Install(s, d).value;
      t.head.None? && t.index == map[] && t.landmarks == [] && Valid(t, [])
  {
    InstallOk(s, d);
    InstallValid(s, hs, d);
    InstallPoints(s, d);
  }
}
