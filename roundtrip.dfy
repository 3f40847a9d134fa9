// SaveModel followed by LoadModel on the internal format: what the file written for a
// valid model reads back as, and that loading it rebuilds a copy of the model, point by
// point, neighbour by neighbour and label by label, after the objects already held.

module RoundTrip {
  import opened Types
  import opened MeshState
  import Assoc
  import Codec
  import Paths
  import opened Loading
  import LoadFacts

  /** A valid model whose file fits the format's int counts. */
  ghost predicate Saving(s: ModelState, hs: seq<Handle>) {
    Valid(s, hs) && Codec.Snapshot(s, hs).Ok? && Codec.Fits(Codec.Snapshot(s, hs).value)
  }

  /** What LoadInternalModelType reads from a file SaveModel wrote. */
  function Reread(f: Codec.FileModel): Codec.Decoded {
    Codec.Decoded(Codec.SupportedVersion, f.modelType, f.nextId, f.count, Some(f.expression),
                  f.history, f.labels, f.points)
  }

  /** Two objects agree on every field SaveMe writes for a point but its neighbours. */
  predicate SameSaved(p: PointRec, q: PointRec) {
    && p.id == q.id && p.x == q.x && p.y == q.y && p.z == q.z
    && p.rangeX == q.rangeX && p.rangeY == q.rangeY && p.u == q.u && p.v == q.v
    && p.color == q.color && p.visited == q.visited && p.features == q.features
  }

  /** The references SaveModel follows: the chain and the neighbours of its points lie in
      the arena, and no label is unbound. */
  ghost predicate Bound(s: ModelState, hs: seq<Handle>) {
    && WellFormed(s)
    && (forall k :: 0 <= k < |hs| ==> hs[k] < |s.arena|)
    && forall i :: 0 <= i < |s.landmarks| ==> s.landmarks[i].1.Some?
  }

  /** What a copy of the chain needs of a valid model: the chain lists the points of the
      model, each once, and as many as the count says; their neighbours and the labels are points of the model;
      adjacency is symmetric and irreflexive; names are distinct. */
  ghost predicate Listed(s: ModelState, hs: seq<Handle>) {
    && Bound(s, hs)
    && NoDup(hs) && s.count == |hs|
    && (forall h :: h in hs <==> Live(s, h))
    && Symmetric(s) && SimpleLists(s) && NeighborsLive(s) && LandmarksLive(s) && PointsShaped(s)
    && Assoc.Unique(s.landmarks)
  }

  lemma ValidListed(s: ModelState, hs: seq<Handle>)
    requires Valid(s, hs)
    ensures Listed(s, hs)
  {
  }

  /** d is what LoadInternalModelType reads back from the file SaveModel writes for the
      chain hs of s: version 5, the header fields as held, the points in chain order with
      their neighbours by ID, the labels by point ID. */
  ghost predicate RereadOf(d: Codec.Decoded, s: ModelState, hs: seq<Handle>)
    requires Bound(s, hs)
  {
    && d.version == Codec.SupportedVersion && d.modelType == s.modelType
    && d.nextId == s.nextId && d.count == s.count && d.expression == Some(s.expression)
    && d.history == s.history
    && |d.points| == |hs|
    && (forall k :: 0 <= k < |hs| ==> d.points[k] == Codec.PointFileOf(s.arena, s.arena[hs[k]]))
    && |d.labels| == |s.landmarks|
    && forall i :: 0 <= i < |d.labels| ==>
      d.labels[i] == (s.landmarks[i].0, s.arena[s.landmarks[i].1.value].id)
  }

  /** With every label bound, SaveModel does not throw, and the file it writes reads
      back as described. */
  lemma SnapshotRereads(s: ModelState, hs: seq<Handle>)
    requires Bound(s, hs)
    ensures Codec.Snapshot(s, hs).Ok?
    ensures Codec.Snapshot(s, hs).value.path == s.path
    ensures RereadOf(Reread(Codec.Snapshot(s, hs).value), s, hs)
  {
  }

  /** On a valid model, the k-th saved point carries the ID of the k-th point of the
      chain, and a point of the model is the k-th of the chain for one k. */
  lemma SavedIdOf(d: Codec.Decoded, s: ModelState, hs: seq<Handle>, h: Handle)
    requires Listed(s, hs) && RereadOf(d, s, hs) && Live(s, h)
    ensures s.arena[h].id in Codec.IdsOf(d.points)
  {
    var k :| 0 <= k < |hs| && hs[k] == h;
    assert Codec.IdsOf(d.points)[k] == s.arena[h].id;
  }

  /** What the file of a valid model reads back as is a well-formed read: distinct point
      IDs, feature names and labels, its own point count; and every neighbour and label
      ID is carried by a saved point. */
  lemma RereadWell(d: Codec.Decoded, s: ModelState, hs: seq<Handle>)
    requires Listed(s, hs) && RereadOf(d, s, hs)
    ensures Codec.WellDecoded(d)
    ensures LoadFacts.NeighborsKnown(d.points) && LoadFacts.LabelsKnown(d.labels, d.points)
  {
    var ids := Codec.IdsOf(d.points);
    forall i, j | 0 <= i < j < |ids| ensures ids[i] != ids[j] {
      assert hs[i] != hs[j] && Live(s, hs[i]) && Live(s, hs[j]);
    }
    forall k | 0 <= k < |d.points| ensures Assoc.Unique(d.points[k].features) {
      assert Live(s, hs[k]);
    }
    forall i, j | 0 <= i < j < |d.labels| ensures d.labels[i].0 != d.labels[j].0 {
      assert s.landmarks[i].0 != s.landmarks[j].0;
    }
    forall j, i | 0 <= j < |d.points| && 0 <= i < |d.points[j].neighbors|
      ensures d.points[j].neighbors[i] in ids
    {
      assert Live(s, hs[j]);
      var n := s.arena[hs[j]].neighbors[i];
      assert d.points[j].neighbors[i] == s.arena[n].id;
      SavedIdOf(d, s, hs, n);
    }
    forall i | 0 <= i < |d.labels| ensures d.labels[i].1 in ids {
      SavedIdOf(d, s, hs, s.landmarks[i].1.value);
    }
  }

  /** Loading a file SaveModel wrote reads it back at version 5 and then runs the
      points, neighbour and label loops on what it read. */
  lemma LoadSaved(f: Codec.FileModel, s0: ModelState, path: string)
    requires Codec.Saveable(f) && WellFormed(s0)
    ensures LoadInternal(s0, path, Codec.Encode(f)) ==
      Install(s0.(path := path, modelType := Paths.Extension(path)), Reread(f))
  {
    Codec.DecodeEncode(f, s0.version);
  }

  /** Those loops run on what the file of a valid model reads back as do not throw. */
  lemma ReloadOk(d: Codec.Decoded, s: ModelState, hs: seq<Handle>, s1: ModelState)
    requires Listed(s, hs) && RereadOf(d, s, hs) && WellFormed(s1)
    ensures Codec.WellDecoded(d) && Install(s1, d).Ok?
  {
    RereadWell(d, s, hs);
    LoadFacts.InstallOk(s1, d);
  }

  /** Two saved points list each other's IDs exactly when the points of the chain they
      were written for are neighbours. */
  lemma SavedLink(d: Codec.Decoded, s: ModelState, hs: seq<Handle>, k: nat, m: nat)
    requires Listed(s, hs) && RereadOf(d, s, hs) && k < |hs| && m < |hs|
    ensures d.points[m].id in d.points[k].neighbors <==> hs[m] in s.arena[hs[k]].neighbors
  {
    var ps, nk := d.points, s.arena[hs[k]].neighbors;
    assert Live(s, hs[k]) && Live(s, hs[m]);
    if ps[m].id in ps[k].neighbors {
      var j :| 0 <= j < |ps[k].neighbors| && ps[k].neighbors[j] == ps[m].id;
      assert Live(s, nk[j]) && s.arena[nk[j]].id == s.arena[hs[m]].id;
    }
    if hs[m] in nk {
      var j :| 0 <= j < |nk| && nk[j] == hs[m];
      assert ps[k].neighbors[j] == ps[m].id;
    }
  }

  /** Objects holding the saved points of the chain hs from base on carry the saved
      fields of its points. */
  lemma SavedFieldsAt(d: Codec.Decoded, s: ModelState, hs: seq<Handle>, a: seq<PointRec>, base: nat)
    requires Bound(s, hs) && RereadOf(d, s, hs)
    requires base + |hs| <= |a| && PointsAsSaved(a, base, d.points)
    ensures FieldsCopied(a, base, s, hs)
  {
    forall k | 0 <= k < |hs| ensures SameSaved(a[base + k], s.arena[hs[k]]) {
      var p := a[base + k].(neighbors := []);
      assert p == Created(d.points[k], if k == 0 then None else Some(base + k - 1),
                          if k == |d.points| - 1 then None else Some(base + k + 1));
      assert p.id == d.points[k].id && p.features == d.points[k].features;
    }
  }

  /** Objects linked as the saved points of the chain hs say, from base on, are
      neighbours exactly when the points of the chain are. */
  lemma SavedLinksAt(d: Codec.Decoded, s: ModelState, hs: seq<Handle>, a: seq<PointRec>, base: nat)
    requires Listed(s, hs) && RereadOf(d, s, hs)
    requires base + |hs| <= |a| && LinkedAsSaved(a, base, d.points)
    ensures LinksCopied(a, base, s, hs)
  {
    forall k, m | 0 <= k < |hs| && 0 <= m < |hs|
      ensures base + m in a[base + k].neighbors <==> hs[m] in s.arena[hs[k]].neighbors
    {
      SavedLink(d, s, hs, k, m);
      SavedLink(d, s, hs, m, k);
      assert Live(s, hs[k]) && Live(s, hs[m]);
      assert k != m <==> hs[k] != hs[m];
    }
  }

  /** Labels bound by saved point ID, through an ID map that sends the k-th saved ID to
      base + k, are bound to the copies of the points of the chain they were bound to. */
  lemma SavedLabelsAt(d: Codec.Decoded, s: ModelState, hs: seq<Handle>, t: ModelState, base: nat)
    requires Listed(s, hs) && RereadOf(d, s, hs)
    requires forall k :: 0 <= k < |d.points| ==> d.points[k].id in t.index && t.index[d.points[k].id] == base + k
    requires |t.landmarks| == |d.labels|
    requires forall i :: 0 <= i < |d.labels| ==>
      d.labels[i].1 in t.index && t.landmarks[i] == (d.labels[i].0, Some(t.index[d.labels[i].1]))
    ensures |t.landmarks| == |s.landmarks| && LabelsCopied(t.landmarks, base, s, hs)
  {
    forall i, k | 0 <= i < |s.landmarks| && 0 <= k < |hs|
      ensures t.landmarks[i].0 == s.landmarks[i].0
      ensures t.landmarks[i].1 == Some(base + k) <==> s.landmarks[i].1 == Some(hs[k])
    {
      var h := s.landmarks[i].1.value;
      assert Live(s, h);
      var k0 :| 0 <= k0 < |hs| && hs[k0] == h;
      assert d.points[k0].id == d.labels[i].1;
    }
  }

  /** The objects from base on carry the saved fields of the points of the chain hs. */
  ghost predicate FieldsCopied(a: seq<PointRec>, base: nat, s: ModelState, hs: seq<Handle>) {
    forall k :: 0 <= k < |hs| && base + k < |a| && hs[k] < |s.arena| ==>
      SameSaved(a[base + k], s.arena[hs[k]])
  }

  /** The objects from base on are neighbours exactly when the points of the chain hs
      they copy are. */
  ghost predicate LinksCopied(a: seq<PointRec>, base: nat, s: ModelState, hs: seq<Handle>) {
    forall k, m :: 0 <= k < |hs| && 0 <= m < |hs| && base + k < |a| && hs[k] < |s.arena| ==>
      (base + m in a[base + k].neighbors <==> hs[m] in s.arena[hs[k]].neighbors)
  }

  /** Each label keeps its name and is bound to the copy of the point of the chain hs it
      was bound to. */
  ghost predicate LabelsCopied(lm: Assoc.Dict<string, Option<Handle>>, base: nat, s: ModelState, hs: seq<Handle>) {
    forall i, k :: 0 <= i < |s.landmarks| && i < |lm| && 0 <= k < |hs| ==>
      lm[i].0 == s.landmarks[i].0 && (lm[i].1 == Some(base + k) <==> s.landmarks[i].1 == Some(hs[k]))
  }

  /** t holds, from base on, a copy of the chain hs of s: the saved fields point by
      point, the neighbour relation, and the labels bound to the copies. */
  ghost predicate Copies(t: ModelState, base: nat, s: ModelState, hs: seq<Handle>) {
    && (forall k :: 0 <= k < |hs| ==> hs[k] < |s.arena|)
    && |t.arena| == base + |hs| && |t.landmarks| == |s.landmarks|
    && FieldsCopied(t.arena, base, s, hs)
    && LinksCopied(t.arena, base, s, hs)
    && LabelsCopied(t.landmarks, base, s, hs)
  }

  /** t holds a copy of the chain hs of s from base on, and the header fields saved; its
      history is the one held before, history, followed by the saved one. */
  ghost predicate Restores(t: ModelState, base: nat, history: seq<string>, path: string,
                           s: ModelState, hs: seq<Handle>) {
    && Copies(t, base, s, hs)
    && t.version == Codec.SupportedVersion && t.path == path
    && t.modelType == s.modelType && t.nextId == s.nextId && t.count == s.count
    && t.expression == s.expression && t.history == history + s.history
  }

  /** The loops run on what the file of a valid model reads back as copy it. */
  lemma ReloadCopies(d: Codec.Decoded, s: ModelState, hs: seq<Handle>, s1: ModelState, t: ModelState)
    requires Listed(s, hs) && RereadOf(d, s, hs) && LoadFacts.Installed(s1, d, t)
    ensures Restores(t, |s1.arena|, s1.history, s1.path, s, hs)
  {
    SavedFieldsAt(d, s, hs, t.arena, |s1.arena|);
    SavedLinksAt(d, s, hs, t.arena, |s1.arena|);
    SavedLabelsAt(d, s, hs, t, |s1.arena|);
  }

  /** The loops run on what the file of a valid model reads back as, over a valid model,
      do not throw, and leave a valid model holding a copy of it. */
  lemma ReloadAll(d: Codec.Decoded, s: ModelState, hs: seq<Handle>, s1: ModelState, hs1: seq<Handle>)
    requires Listed(s, hs) && RereadOf(d, s, hs) && Valid(s1, hs1)
    ensures Codec.WellDecoded(d) && Install(s1, d).Ok?
    ensures Valid(Install(s1, d).value, Span(|s1.arena|, |hs|))
    ensures Restores(Install(s1, d).value, |s1.arena|, s1.history, s1.path, s, hs)
  {
    ReloadOk(d, s, hs, s1);
    LoadFacts.InstallFacts(s1, hs1, d);
    ReloadCopies(d, s, hs, s1, Install(s1, d).value);
  }

  /** The file of a valid model is one SaveModel can write and LoadModel read back. */
  lemma SnapshotSaveable(s: ModelState, hs: seq<Handle>)
    requires Saving(s, hs)
    ensures Codec.Saveable(Codec.Snapshot(s, hs).value)
  {
    SnapshotRereads(s, hs);
    ValidListed(s, hs);
    RereadWell(Reread(Codec.Snapshot(s, hs).value), s, hs);
  }

  /** Recording the path and the type keeps a model valid. */
  lemma RenamedValid(s: ModelState, hs: seq<Handle>, path: string, modelType: string)
    requires Valid(s, hs)
    ensures Valid(s.(path := path, modelType := modelType), hs)
  {
    var r := s.(path := path, modelType := modelType);
    assert r.arena == s.arena && r.index == s.index && r.head == s.head;
    assert r.landmarks == s.landmarks && r.count == s.count;
  }

  /** The loops run on the file SaveModel wrote for a valid model, over a valid model
      whose path and type LoadModel has just set, copy the saved model. */
  lemma ReloadSaved(s: ModelState, hs: seq<Handle>, s0: ModelState, hs0: seq<Handle>, path: string)
    requires Saving(s, hs) && Valid(s0, hs0)
    ensures var d := Reread(Codec.Snapshot(s, hs).value);
      var s1 := s0.(path := path, modelType := Paths.Extension(path));
      && WellFormed(s1) && Codec.WellDecoded(d) && Install(s1, d).Ok?
      && Valid(Install(s1, d).value, Span(|s0.arena|, |hs|))
      && Restores(Install(s1, d).value, |s0.arena|, s0.history, path, s, hs)
  {
    SnapshotRereads(s, hs);
    ValidListed(s, hs);
    var s1 := s0.(path := path, modelType := Paths.Extension(path));
    RenamedValid(s0, hs0, path, Paths.Extension(path));
    assert s1.arena == s0.arena && s1.history == s0.history && s1.path == path;
    ReloadAll(Reread(Codec.Snapshot(s, hs).value), s, hs, s1, hs0);
  }

  /** LoadModel of the file SaveModel wrote for a valid model, into a valid model, does
      not throw and leaves a valid model holding a copy of the saved one after the
      objects it held: the same points with the same saved fields, neighbours and
      labels, the same header fields, read at version 5, the history appended to the
      one held, and the path loaded from. */
  lemma SaveLoad(s: ModelState, hs: seq<Handle>, s0: ModelState, hs0: seq<Handle>, path: string)
    requires Saving(s, hs) && Valid(s0, hs0)
    ensures LoadInternal(s0, path, Codec.Encode(Codec.Snapshot(s, hs).value)).Ok?
    ensures var t := LoadInternal(s0, path, Codec.Encode(Codec.Snapshot(s, hs).value)).value;
      Valid(t, Span(|s0.arena|, |hs|)) && Restores(t, |s0.arena|, s0.history, path, s, hs)
  {
    SnapshotSaveable(s, hs);
    LoadSaved(Codec.Snapshot(s, hs).value, s0, path);
    ReloadSaved(s, hs, s0, hs0, path);
  }
}
