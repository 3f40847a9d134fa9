// RemovePointFromModel: a point leaves the model. Its label is dropped, the head
// moves on if the point was the head, every neighbour unlinks itself, the chain is
// spliced around it, and the ID map and the count forget it. The cursor passed in
// becomes invalid; the returned cursor stands on the removed point's successor.

module Removal {
  import opened Types
  import opened MeshState
  import Assoc
  import Cursors

  /** The neighbour loop: each neighbour n of p, in list order, unlinks itself from p
      (n drops p, then p drops n). Only neighbour lists change, and they only shrink. */
  function DetachAll(s: ModelState, p: Handle, ns: seq<Handle>): (t: ModelState)
    requires p < |s.arena| && forall j :: 0 <= j < |ns| ==> ns[j] < |s.arena|
    ensures Cursors.SameExceptNeighbors(s, t)
    ensures forall g, j :: 0 <= g < |t.arena| && 0 <= j < |t.arena[g].neighbors| ==>
      t.arena[g].neighbors[j] in s.arena[g].neighbors
    decreases |ns|
  {
    if ns == [] then s
    else
      var t := DetachAll(s, p, ns[..|ns| - 1]);
      Cursors.Unlink(t, ns[|ns| - 1], p)
  }

  /** The link repairs: p's successor takes p's predecessor, then p's predecessor
      takes p's successor. */
  function Splice(s: ModelState, p: Handle): (t: ModelState)
    requires p < |s.arena| && HandleOk(s, s.arena[p].next) && HandleOk(s, s.arena[p].prev)
    ensures |t.arena| == |s.arena| && t.(arena := s.arena) == s
    ensures forall g :: 0 <= g < |s.arena| ==>
      t.arena[g] == s.arena[g].(next := t.arena[g].next, prev := t.arena[g].prev)
  {
    var P := s.arena[p];
    var s1 := if P.next.Some? then Update(s, P.next.value, s.arena[P.next.value].(prev := P.prev)) else s;
    var Q := s1.arena[p];
    if Q.prev.Some? then Update(s1, Q.prev.value, s1.arena[Q.prev.value].(next := Q.next)) else s1
  }

  /** Everything RemovePointFromModel does after the label loop. */
  function Unchain(s: ModelState, p: Handle): (t: ModelState)
    requires WellFormed(s) && p < |s.arena| && s.head.Some?
  {
    var id := s.arena[p].id;
    assert PointOk(s, s.arena[p]);
    var s3 := DetachAll(MoveHeadPast(s, id), p, s.arena[p].neighbors);
    assert PointOk(s3, s3.arena[p]);
    Forget(Splice(s3, p), id)
  }

  /** The head moves on when it carries the removed point's ID. */
  function MoveHeadPast(s: ModelState, id: u32): (t: ModelState)
    requires HandleOk(s, s.head) && s.head.Some?
    ensures t.arena == s.arena && t.index == s.index && t.count == s.count && t.landmarks == s.landmarks
    ensures s.arena[s.head.value].id == id ==> t.head == s.arena[s.head.value].next
    ensures s.arena[s.head.value].id != id ==> t == s
  {
    if s.arena[s.head.value].id == id then s.(head := s.arena[s.head.value].next) else s
  }

  /** The ID map and the count forget the removed point. */
  function Forget(s: ModelState, id: u32): (t: ModelState)
    ensures t.arena == s.arena && t.head == s.head && t.landmarks == s.landmarks
    ensures id !in t.index && forall i :: i != id ==> (i in t.index <==> i in s.index)
    ensures t.count == if s.count == 0 then TWO32 - 1 else s.count - 1
  {
    s.(index := s.index - {id}, count := Dec32(s.count))
  }

  /** RemovePointFromModel as written: only the first label bound to the point is
      dropped (the loop breaks after one removal). Nothing happens for an empty model
      or an invalid cursor; a null label binding met first throws. The result is the
      passed cursor afterwards and the returned cursor. */
  function RemovePointAsWritten(s: ModelState, c: Cursor): (e: Effect<(Cursor, Cursor)>)
    requires WellFormed(s) && InArena(s, c)
    ensures s.head.None? || c.None? ==> e == Effect(Ok((c, None)), s)
    ensures e.out.Err? ==> e.post == s && e.out.error == NullReference
  {
    if s.head.None? || c.None? then Effect(Ok((c, None)), s)
    else
      var p := c.value;
      match Cursors.FirstLabelOf(s, s.landmarks, s.arena[p].id)
      case Err(err) => Effect(Err(err), s)
      case Ok(l) =>
        var s1 := if l.Some? then s.(landmarks := Assoc.Remove(s.landmarks, l.value)) else s;
        var t := Unchain(s1, p);
        Effect(Ok((None, t.arena[p].next)), t)
  }

  /** The labels that survive the removal of the point with the given ID: every label
      not bound to such a point, in order. */
  function DropLabelsOf(s: ModelState, lm: Assoc.Dict<string, Option<Handle>>, id: u32): Assoc.Dict<string, Option<Handle>>
  {
    if lm == [] then []
    else if BoundTo(s, lm[0].1, id) then DropLabelsOf(s, lm[1..], id)
    else [lm[0]] + DropLabelsOf(s, lm[1..], id)
  }

  /** The label is bound to a point of the arena that carries the ID. */
  predicate BoundTo(s: ModelState, b: Option<Handle>, id: u32) {
    b.Some? && b.value < |s.arena| && s.arena[b.value].id == id
  }

  /** The filter keeps exactly the labels not bound to the ID, and keeps keys unique. */
  lemma {:induction false} DropLabelsFacts(s: ModelState, lm: Assoc.Dict<string, Option<Handle>>, id: u32)
    ensures var r := DropLabelsOf(s, lm, id);
      && (forall i :: 0 <= i < |r| ==> r[i] in lm && !BoundTo(s, r[i].1, id))
      && (forall i :: 0 <= i < |lm| && !BoundTo(s, lm[i].1, id) ==> lm[i] in r)
      && (Assoc.Unique(lm) ==> Assoc.Unique(r))
  {
    if lm != [] {
      DropLabelsFacts(s, lm[1..], id);
      var rest := DropLabelsOf(s, lm[1..], id);
      assert forall i :: 0 <= i < |rest| ==> rest[i] in lm;
      assert forall i :: 1 <= i < |lm| ==> lm[i] == lm[1..][i - 1];
      if !BoundTo(s, lm[0].1, id) && Assoc.Unique(lm) {
        forall i | 0 <= i < |rest| ensures rest[i].0 != lm[0].0 {
          var j :| 0 <= j < |lm[1..]| && lm[1..][j] == rest[i];
          assert lm[j + 1] == rest[i];
        }
        var r := [lm[0]] + rest;
        forall i, j | 0 <= i < j < |r| ensures r[i].0 != r[j].0 {
          if i > 0 { assert r[i] == rest[i - 1] && r[j] == rest[j - 1]; }
        }
      }
    }
  }

  /** Some label is bound to nothing (a null value in m_dSpecificPoints). */
  predicate HasNullLabel(lm: Assoc.Dict<string, Option<Handle>>) {
    exists i :: 0 <= i < |lm| && lm[i].1.None?
  }

  /** RemovePointFromModel as evidently intended: the label loop runs to the end, so
      every label bound to the point is dropped and no label is left bound to a point
      that is not in the model; a null binding anywhere throws before anything changes. */
  function RemovePoint(s: ModelState, c: Cursor): (e: Effect<(Cursor, Cursor)>)
    requires WellFormed(s) && InArena(s, c)
    ensures s.head.None? || c.None? ==> e == Effect(Ok((c, None)), s)
    ensures e.out.Err? <==> s.head.Some? && c.Some? && HasNullLabel(s.landmarks)
    ensures e.out.Err? ==> e.post == s && e.out.error == NullReference
  {
    if s.head.None? || c.None? then Effect(Ok((c, None)), s)
    else if HasNullLabel(s.landmarks) then Effect(Err(NullReference), s)
    else
      var p := c.value;
      DropLabelsFacts(s, s.landmarks, s.arena[p].id);
      var s1 := s.(landmarks := DropLabelsOf(s, s.landmarks, s.arena[p].id));
      var t := Unchain(s1, p);
      Effect(Ok((None, t.arena[p].next)), t)
  }

  /** With at most one label bound to the point, the source's removal is the intended one. */
  lemma AsWrittenAgrees(s: ModelState, p: Handle)
    requires WellFormed(s) && IndexSound(s) && LandmarksLive(s) && Assoc.Unique(s.landmarks) && Live(s, p)
    requires forall i, j :: 0 <= i < j < |s.landmarks| && s.landmarks[i].1 == Some(p) ==> s.landmarks[j].1 != Some(p)
    ensures RemovePointAsWritten(s, Some(p)) == RemovePoint(s, Some(p))
  {
    var lm := s.landmarks;
    var id := s.arena[p].id;
    LabelsBoundTo(s, p);
    var l := Cursors.FirstLabelOf(s, lm, id);
    assert l.Ok?;
    DropAtMostOne(s, lm, id, l.value);
    var s1 := if l.value.Some? then s.(landmarks := Assoc.Remove(lm, l.value.value)) else s;
    assert s1 == s.(landmarks := DropLabelsOf(s, lm, id));
  }

  /** A single point carrying two labels. */
  function TwoLabelModel(): (s: ModelState)
    ensures Valid(s, [0])
  {
    var s := Empty().(arena := [NewPoint(0, PositiveZero, PositiveZero, PositiveZero)], index := map[0 := 0],
                      head := Some(0), landmarks := [("NoseTip", Some(0)), ("UnspecifiedPoint", Some(0))], count := 1);
    assert forall h :: h in [0] <==> Live(s, h);
    s
  }

  /** Removing a point that carries two labels: the source's loop drops the first label
      only, so the second stays bound to a point that is no longer in the model; the
      intended removal drops both and keeps the model invariant. */
  lemma RemoveLeavesDanglingLabel()
    ensures var s := TwoLabelModel();
      && RemovePointAsWritten(s, Some(0)).post.landmarks == [("UnspecifiedPoint", Some(0))]
      && !LandmarksLive(RemovePointAsWritten(s, Some(0)).post)
      && Valid(RemovePoint(s, Some(0)).post, [])
  {
    var s := TwoLabelModel();
    var lm := s.landmarks;
    assert Cursors.FirstLabelOf(s, lm, 0) == Ok(Some("NoseTip"));
    var rest: Assoc.Dict<string, Option<Handle>> := lm[1..];
    assert rest == [("UnspecifiedPoint", Some(0))] && rest[1..] == [];
    assert Assoc.Remove(lm, "NoseTip") == rest;
    var t := RemovePointAsWritten(s, Some(0)).post;
    assert t.landmarks[0].1 == Some(0) && 0 !in t.index;
    RemovePointValid(s, [0], 0);
  }

  /** A label bound to null after the point's own label: the source's loop stops at
      the match and never reads the null binding, so the removal succeeds; the loop
      that visits every label reads it and throws before anything changes. */
  lemma NullAfterMatch()
    ensures var s := Empty().(arena := [NewPoint(0, PositiveZero, PositiveZero, PositiveZero)], index := map[0 := 0],
                              head := Some(0), landmarks := [("NoseTip", Some(0)), ("UnspecifiedPoint", None)], count := 1);
      && RemovePointAsWritten(s, Some(0)).out.Ok?
      && RemovePointAsWritten(s, Some(0)).post.landmarks == [("UnspecifiedPoint", None)]
      && RemovePoint(s, Some(0)) == Effect(Err(NullReference), s)
  {
    var s := Empty().(arena := [NewPoint(0, PositiveZero, PositiveZero, PositiveZero)], index := map[0 := 0],
                      head := Some(0), landmarks := [("NoseTip", Some(0)), ("UnspecifiedPoint", None)], count := 1);
    var lm := s.landmarks;
    assert Cursors.FirstLabelOf(s, lm, 0) == Ok(Some("NoseTip"));
    var rest: Assoc.Dict<string, Option<Handle>> := lm[1..];
    assert rest == [("UnspecifiedPoint", None)] && rest[1..] == [];
    assert Assoc.Remove(lm, "NoseTip") == rest;
    assert HasNullLabel(lm) by {
      assert lm[1].1.None?;
    }
  }

  lemma {:induction false} DropAtMostOne(s: ModelState, lm: Assoc.Dict<string, Option<Handle>>, id: u32, l: Option<string>)
    requires Cursors.TargetsOk(s, lm) && Assoc.Unique(lm)
    requires forall i :: 0 <= i < |lm| ==> lm[i].1.Some?
    requires forall i, j :: 0 <= i < j < |lm| && BoundTo(s, lm[i].1, id) ==> !BoundTo(s, lm[j].1, id)
    requires Cursors.FirstLabelOf(s, lm, id) == Ok(l)
    ensures DropLabelsOf(s, lm, id) == if l.Some? then Assoc.Remove(lm, l.value) else lm
  {
    if lm != [] {
      assert Cursors.TargetsOk(s, lm[1..]);
      if BoundTo(s, lm[0].1, id) {
        assert forall i :: 0 <= i < |lm[1..]| ==> !BoundTo(s, lm[1..][i].1, id) by {
          forall i | 0 <= i < |lm[1..]| ensures !BoundTo(s, lm[1..][i].1, id) {
            assert lm[1..][i] == lm[i + 1];
          }
        }
        NoneBound(s, lm[1..], id);
        RemoveAbsent(lm[1..], lm[0].0);
      } else {
        DropAtMostOne(s, lm[1..], id, l);
        if l.Some? {
          assert lm[0].0 != l.value by {
            var i :| 0 <= i < |lm| && lm[i].0 == l.value && lm[i].1.Some? && s.arena[lm[i].1.value].id == id;
          }
        }
      }
    }
  }

  lemma {:induction false} NoneBound(s: ModelState, lm: Assoc.Dict<string, Option<Handle>>, id: u32)
    requires Cursors.TargetsOk(s, lm)
    requires forall i :: 0 <= i < |lm| ==> !BoundTo(s, lm[i].1, id)
    ensures DropLabelsOf(s, lm, id) == lm
  {
    if lm != [] {
      NoneBound(s, lm[1..], id);
    }
  }

  lemma {:induction false} RemoveAbsent<V>(d: Assoc.Dict<string, V>, k: string)
    requires forall i :: 0 <= i < |d| ==> d[i].0 != k
    ensures Assoc.Remove(d, k) == d
  {
    if d != [] {
      RemoveAbsent(d[1..], k);
    }
  }

  // ----- what the removal does, step by step --------------------------------------

  /** After the first k neighbours of p have unlinked themselves, p lists the rest, each
      of those k lists p no more, and every other list is untouched. */
  lemma {:induction false} DetachAllEffect(s: ModelState, p: Handle, k: nat)
    requires p < |s.arena| && forall j :: 0 <= j < |s.arena[p].neighbors| ==> s.arena[p].neighbors[j] < |s.arena|
    requires NoDup(s.arena[p].neighbors) && p !in s.arena[p].neighbors && k <= |s.arena[p].neighbors|
    ensures var L := s.arena[p].neighbors; var t := DetachAll(s, p, L[..k]);
      && t.arena[p].neighbors == L[k..]
      && (forall g :: 0 <= g < |s.arena| && g in L[..k] ==> t.arena[g].neighbors == RemoveFirst(s.arena[g].neighbors, p))
      && (forall g :: 0 <= g < |s.arena| && g != p && g !in L[..k] ==> t.arena[g].neighbors == s.arena[g].neighbors)
  {
    var L := s.arena[p].neighbors;
    if k > 0 {
      DetachAllEffect(s, p, k - 1);
      var t' := DetachAll(s, p, L[..k - 1]);
      var n := L[k - 1];
      DetachAllLast(s, p, L, k);
      Cursors.UnlinkLists(t', n, p);
      DetachStep(s.arena, t'.arena, DetachAll(s, p, L[..k]).arena, p, k);
    }
  }

  lemma DetachAllLast(s: ModelState, p: Handle, L: seq<Handle>, k: nat)
    requires p < |s.arena| && 0 < k <= |L| && forall j :: 0 <= j < |L| ==> L[j] < |s.arena|
    ensures DetachAll(s, p, L[..k]) == Cursors.Unlink(DetachAll(s, p, L[..k - 1]), L[k - 1], p)
  {
    assert L[..k][..k - 1] == L[..k - 1];
  }

  /** One more neighbour unlinking itself, on the arenas alone. */
  lemma DetachStep(a: seq<PointRec>, b: seq<PointRec>, c: seq<PointRec>, p: Handle, k: nat)
    requires p < |a| == |b| == |c| && 0 < k <= |a[p].neighbors|
    requires NoDup(a[p].neighbors) && p !in a[p].neighbors
    requires var L := a[p].neighbors;
      && b[p].neighbors == L[k - 1..]
      && (forall g :: 0 <= g < |a| && g in L[..k - 1] ==> b[g].neighbors == RemoveFirst(a[g].neighbors, p))
      && (forall g :: 0 <= g < |a| && g != p && g !in L[..k - 1] ==> b[g].neighbors == a[g].neighbors)
    requires var n := a[p].neighbors[k - 1]; (n < |a|
      && c[n] == b[n].(neighbors := RemoveFirst(b[n].neighbors, p))
      && c[p] == b[p].(neighbors := RemoveFirst(b[p].neighbors, n))
      && forall g :: 0 <= g < |a| && g != n && g != p ==> c[g] == b[g])
    ensures var L := a[p].neighbors;
      && c[p].neighbors == L[k..]
      && (forall g :: 0 <= g < |a| && g in L[..k] ==> c[g].neighbors == RemoveFirst(a[g].neighbors, p))
      && (forall g :: 0 <= g < |a| && g != p && g !in L[..k] ==> c[g].neighbors == a[g].neighbors)
  {
    var L := a[p].neighbors;
    var n := L[k - 1];
    assert n != p;
    assert n !in L[..k - 1];
    assert L[k - 1..] == [n] + L[k..];
    assert L[..k] == L[..k - 1] + [n];
    forall g | 0 <= g < |a| && g in L[..k]
      ensures c[g].neighbors == RemoveFirst(a[g].neighbors, p)
    {
      if g != n {
        assert g in L[..k - 1] && g != p;
      }
    }
  }

  /** Once all of p's neighbours have unlinked themselves, no list holds p, p lists
      nobody, every other list lost p and nothing else, and adjacency is still
      symmetric and simple. */
  lemma DetachComplete(s: ModelState, p: Handle)
    requires WellFormed(s) && Symmetric(s) && SimpleLists(s) && p < |s.arena|
    ensures var t := DetachAll(s, p, s.arena[p].neighbors);
      && Isolated(s.arena, t.arena, p)
      && WellFormed(t) && Symmetric(t) && SimpleLists(t)
  {
    var L := s.arena[p].neighbors;
    var t := DetachAll(s, p, L);
    assert PointOk(s, s.arena[p]) && NoDup(L) && p !in L;
    DetachAllEffect(s, p, |L|);
    assert L[..|L|] == L;
    DetachLists(s, t, p);
    DetachSymmetric(s, t, p);
    NeighborsShrinkWellFormed(s, t);
  }

  /** Shrinking neighbour lists keeps every reference inside the arena. */
  lemma NeighborsShrinkWellFormed(s: ModelState, t: ModelState)
    requires WellFormed(s) && Cursors.SameExceptNeighbors(s, t)
    requires forall g, x :: 0 <= g < |s.arena| && x in t.arena[g].neighbors ==> x in s.arena[g].neighbors
    ensures WellFormed(t)
  {
    forall g | 0 <= g < |t.arena| ensures PointOk(t, t.arena[g]) {
      assert PointOk(s, s.arena[g]);
      forall j | 0 <= j < |t.arena[g].neighbors| ensures t.arena[g].neighbors[j] < |t.arena| {
        assert t.arena[g].neighbors[j] in s.arena[g].neighbors;
      }
    }
  }

  /** The lists after the neighbour loop, entry by entry. */
  lemma DetachLists(s: ModelState, t: ModelState, p: Handle)
    requires SimpleLists(s) && p < |s.arena| && |t.arena| == |s.arena|
    requires var L := s.arena[p].neighbors;
      && t.arena[p].neighbors == []
      && (forall g :: 0 <= g < |s.arena| && g in L ==> t.arena[g].neighbors == RemoveFirst(s.arena[g].neighbors, p))
      && (forall g :: 0 <= g < |s.arena| && g != p && g !in L ==> t.arena[g].neighbors == s.arena[g].neighbors)
    requires forall g :: 0 <= g < |s.arena| && g != p && g !in s.arena[p].neighbors ==> p !in s.arena[g].neighbors
    ensures forall g, x :: 0 <= g < |s.arena| ==> (x in t.arena[g].neighbors <==> x in s.arena[g].neighbors && x != p && g != p)
    ensures SimpleLists(t)
  {
    forall g | 0 <= g < |s.arena|
      ensures forall x :: x in t.arena[g].neighbors <==> x in s.arena[g].neighbors && x != p && g != p
      ensures NoDup(t.arena[g].neighbors) && g !in t.arena[g].neighbors
    {
      RemoveFirstFacts(s.arena[g].neighbors, p);
    }
  }

  /** Dropping p from every list and p's own list keeps adjacency symmetric. */
  lemma DetachSymmetric(s: ModelState, t: ModelState, p: Handle)
    requires Symmetric(s) && |t.arena| == |s.arena|
    requires forall g, x :: 0 <= g < |s.arena| ==> (x in t.arena[g].neighbors <==> x in s.arena[g].neighbors && x != p && g != p)
    ensures Symmetric(t)
  {
    forall a, b | 0 <= a < |t.arena| && 0 <= b < |t.arena|
      ensures b in t.arena[a].neighbors <==> a in t.arena[b].neighbors
    {
      assert b in s.arena[a].neighbors <==> a in s.arena[b].neighbors;
    }
  }

  /** What the two link repairs change: p's successor now points back to p's
      predecessor, p's predecessor forward to p's successor, and nothing else moves. */
  lemma SpliceEffect(s: ModelState, p: Handle)
    requires p < |s.arena| && HandleOk(s, s.arena[p].next) && HandleOk(s, s.arena[p].prev)
    requires s.arena[p].next != Some(p) && s.arena[p].prev != Some(p)
    requires s.arena[p].next.None? || s.arena[p].next != s.arena[p].prev
    ensures var t, P := Splice(s, p), s.arena[p];
      && t.arena[p] == P
      && (P.next.Some? ==> t.arena[P.next.value] == s.arena[P.next.value].(prev := P.prev))
      && (P.prev.Some? ==> t.arena[P.prev.value] == s.arena[P.prev.value].(next := P.next))
      && (forall g :: 0 <= g < |s.arena| && Some(g) != P.next && Some(g) != P.prev ==> t.arena[g] == s.arena[g])
  {
  }

  /** Splicing the k-th point out of a chain leaves the chain without it. */
  lemma SpliceChain(s: ModelState, hs: seq<Handle>, k: nat)
    requires Linked(s, hs) && k < |hs|
    ensures s.arena[hs[k]].next == (if k + 1 < |hs| then Some(hs[k + 1]) else None)
    ensures s.arena[hs[k]].prev == (if k > 0 then Some(hs[k - 1]) else None)
    ensures var t := Splice(s, hs[k]);
      && Linked(t, hs[..k] + hs[k + 1..])
      && t.arena[hs[k]].next == (if k + 1 < |hs| then Some(hs[k + 1]) else None)
  {
    SplicedArenas(s, hs, k);
    var a, b := s.arena, Splice(s, hs[k]).arena;
    DropAt(hs, k);
    RelinkNext(a, b, hs, k);
    RelinkPrev(a, b, hs, k);
    RelinkEnds(a, b, hs, k);
  }

  lemma SplicedArenas(s: ModelState, hs: seq<Handle>, k: nat)
    requires Linked(s, hs) && k < |hs|
    ensures s.arena[hs[k]].next == (if k + 1 < |hs| then Some(hs[k + 1]) else None)
    ensures s.arena[hs[k]].prev == (if k > 0 then Some(hs[k - 1]) else None)
    ensures Spliced(s.arena, Splice(s, hs[k]).arena, hs, k)
  {
    var p := hs[k];
    var P := s.arena[p];
    assert P.next == (if k + 1 < |hs| then Some(hs[k + 1]) else None);
    assert P.prev == (if k > 0 then Some(hs[k - 1]) else None);
    SpliceEffect(s, p);
  }

  /** hs without its k-th element. */
  lemma DropAt(hs: seq<Handle>, k: nat)
    requires k < |hs| && NoDup(hs)
    ensures var r := hs[..k] + hs[k + 1..];
      && |r| == |hs| - 1
      && (forall i :: 0 <= i < |r| ==> r[i] == if i < k then hs[i] else hs[i + 1])
      && NoDup(r)
      && (forall h :: h in r <==> h in hs && h != hs[k])
  {
    var r := hs[..k] + hs[k + 1..];
    assert forall i :: 0 <= i < |r| ==> r[i] == if i < k then hs[i] else hs[i + 1];
    forall h ensures h in r <==> h in hs && h != hs[k] {
      if h in hs && h != hs[k] {
        var i :| 0 <= i < |hs| && hs[i] == h;
        if i < k { assert r[i] == h; } else { assert r[i - 1] == h; }
      }
    }
  }

  /** The arenas around a splice of the k-th point of a chain. */
  ghost predicate Spliced(a: seq<PointRec>, b: seq<PointRec>, hs: seq<Handle>, k: nat) {
    && |a| == |b| && k < |hs| && NoDup(hs) && (forall i :: 0 <= i < |hs| ==> hs[i] < |a|)
    && (forall i :: 0 <= i < |hs| - 1 ==> a[hs[i]].next == Some(hs[i + 1]))
    && (forall i :: 0 < i < |hs| ==> a[hs[i]].prev == Some(hs[i - 1]))
    && a[hs[|hs| - 1]].next.None? && a[hs[0]].prev.None?
    && b[hs[k]] == a[hs[k]]
    && (k + 1 < |hs| ==> b[hs[k + 1]] == a[hs[k + 1]].(prev := a[hs[k]].prev))
    && (k > 0 ==> b[hs[k - 1]] == a[hs[k - 1]].(next := a[hs[k]].next))
    && (forall g :: 0 <= g < |a| && g != hs[k] && (k + 1 >= |hs| || g != hs[k + 1]) && (k == 0 || g != hs[k - 1]) ==> b[g] == a[g])
  }

  lemma RelinkNext(a: seq<PointRec>, b: seq<PointRec>, hs: seq<Handle>, k: nat)
    requires Spliced(a, b, hs, k)
    ensures var r := hs[..k] + hs[k + 1..];
      forall i :: 0 <= i < |r| - 1 ==> b[r[i]].next == Some(r[i + 1])
  {
    var r := hs[..k] + hs[k + 1..];
    DropAt(hs, k);
    forall i | 0 <= i < |r| - 1 ensures b[r[i]].next == Some(r[i + 1]) {
      if i < k - 1 {
        assert hs[i] != hs[k - 1] && hs[i] != hs[k] && (k + 1 >= |hs| || hs[i] != hs[k + 1]);
      } else if i > k {
        assert (k == 0 || hs[i + 1] != hs[k - 1]) && hs[i + 1] != hs[k] && hs[i + 1] != hs[k + 1];
      }
    }
  }

  lemma RelinkPrev(a: seq<PointRec>, b: seq<PointRec>, hs: seq<Handle>, k: nat)
    requires Spliced(a, b, hs, k)
    ensures var r := hs[..k] + hs[k + 1..];
      forall i :: 0 < i < |r| ==> b[r[i]].prev == Some(r[i - 1])
  {
    var r := hs[..k] + hs[k + 1..];
    DropAt(hs, k);
    forall i | 0 < i < |r| ensures b[r[i]].prev == Some(r[i - 1]) {
      if i < k - 1 {
        assert hs[i] != hs[k - 1] && hs[i] != hs[k] && (k + 1 >= |hs| || hs[i] != hs[k + 1]);
      } else if i > k {
        assert (k == 0 || hs[i + 1] != hs[k - 1]) && hs[i + 1] != hs[k] && hs[i + 1] != hs[k + 1];
      }
    }
  }

  lemma RelinkEnds(a: seq<PointRec>, b: seq<PointRec>, hs: seq<Handle>, k: nat)
    requires Spliced(a, b, hs, k)
    ensures var r := hs[..k] + hs[k + 1..];
      r != [] ==> b[r[|r| - 1]].next.None? && b[r[0]].prev.None?
  {
    var r := hs[..k] + hs[k + 1..];
    DropAt(hs, k);
    var last := |hs| - 1;
    if r != [] {
      if k < last - 1 {
        assert hs[last] != hs[k] && hs[last] != hs[k + 1] && (k == 0 || hs[last] != hs[k - 1]);
      }
      if k > 1 {
        assert hs[0] != hs[k] && hs[0] != hs[k - 1] && (k + 1 >= |hs| || hs[0] != hs[k + 1]);
      }
    }
  }

  // ----- the removal keeps the model invariant ------------------------------------

  /** Removing the k-th point of the chain: the returned cursor stands on its
      successor, the chain closes over it, the ID map forgets its ID, it lists no
      neighbour and no point lists it, exactly the labels bound to it are dropped,
      and the model invariant holds for the shorter chain. */
  lemma RemovePointValid(s: ModelState, hs: seq<Handle>, k: nat)
    requires Valid(s, hs) && k < |hs|
    ensures var p, e := hs[k], RemovePoint(s, Some(hs[k]));
      && e.out == Ok((None, if k + 1 < |hs| then Some(hs[k + 1]) else None))
      && Valid(e.post, hs[..k] + hs[k + 1..])
      && e.post.index == s.index - {s.arena[p].id}
      && e.post.arena[p].neighbors == []
      && (forall g :: 0 <= g < |e.post.arena| ==> p !in e.post.arena[g].neighbors)
      && (forall i :: 0 <= i < |e.post.landmarks| ==> e.post.landmarks[i] in s.landmarks && e.post.landmarks[i].1 != Some(p))
      && (forall i :: 0 <= i < |s.landmarks| && s.landmarks[i].1 != Some(p) ==> s.landmarks[i] in e.post.landmarks)
  {
    RemoveSteps(s, hs, k);
    var t := RemovePoint(s, Some(hs[k])).post;
    RemoveAssemble(s, hs, k, t);
    LabelsBoundTo(s, hs[k]);
    DropLabelsFacts(s, s.landmarks, s.arena[hs[k]].id);
  }

  /** What the steps of the removal leave behind, compared with the state before. */
  ghost predicate RemovedFrom(s: ModelState, t: ModelState, hs: seq<Handle>, k: nat)
    requires k < |hs| && hs[k] < |s.arena| && Cursors.TargetsOk(s, s.landmarks)
  {
    && Isolated(s.arena, t.arena, hs[k])
    && WellFormed(t) && Symmetric(t) && SimpleLists(t)
    && ChainIs(t, hs[..k] + hs[k + 1..])
    && t.index == s.index - {s.arena[hs[k]].id} && t.count == Dec32(s.count)
    && t.landmarks == DropLabelsOf(s, s.landmarks, s.arena[hs[k]].id)
  }

  /** The same objects with the same IDs, features and flags; p lists nobody and no
      list holds p any more, every other list is as it was. */
  ghost predicate Isolated(a: seq<PointRec>, b: seq<PointRec>, p: Handle) {
    && |b| == |a| && p < |a|
    && (forall g :: 0 <= g < |a| ==> b[g].id == a[g].id && b[g].features == a[g].features && b[g].flags == a[g].flags)
    && (forall g, x :: 0 <= g < |a| ==> (x in b[g].neighbors <==> x in a[g].neighbors && x != p && g != p))
    && b[p].neighbors == []
  }

  lemma RemoveSteps(s: ModelState, hs: seq<Handle>, k: nat)
    requires Valid(s, hs) && k < |hs|
    ensures Cursors.TargetsOk(s, s.landmarks)
    ensures var e := RemovePoint(s, Some(hs[k]));
      && e.out == Ok((None, if k + 1 < |hs| then Some(hs[k + 1]) else None))
      && RemovedFrom(s, e.post, hs, k)
  {
    RemoveFront(s, hs, k);
    assert !HasNullLabel(s.landmarks) by {
      assert forall i :: 0 <= i < |s.landmarks| ==> s.landmarks[i].1.Some?;
    }
    RemoveTail(s, hs, k);
    RemovePointUnfold(s, hs[k]);
  }

  /** The corrected removal on a model without null labels, spelt out. */
  lemma RemovePointUnfold(s: ModelState, p: Handle)
    requires WellFormed(s) && p < |s.arena| && s.head.Some? && !HasNullLabel(s.landmarks)
    ensures var s1 := s.(landmarks := DropLabelsOf(s, s.landmarks, s.arena[p].id));
      WellFormed(s1) && RemovePoint(s, Some(p)) == Effect(Ok((None, Unchain(s1, p).arena[p].next)), Unchain(s1, p))
  {
    FilteredWellFormed(s, s.arena[p].id);
  }

  lemma FilteredWellFormed(s: ModelState, id: u32)
    requires WellFormed(s)
    ensures WellFormed(s.(landmarks := DropLabelsOf(s, s.landmarks, id)))
  {
    DropLabelsFacts(s, s.landmarks, id);
  }

  /** Everything after the label loop, on a state whose labels are already filtered. */
  lemma RemoveTail(s: ModelState, hs: seq<Handle>, k: nat)
    requires k < |hs| && hs[k] < |s.arena| && Cursors.TargetsOk(s, s.landmarks) && NoDup(hs)
    requires var id := s.arena[hs[k]].id;
      var s1 := s.(landmarks := DropLabelsOf(s, s.landmarks, id));
      && WellFormed(s1) && s1.head.Some?
      && var s2 := MoveHeadPast(s1, id);
      && s2.arena == s.arena && s2.index == s.index && s2.count == s.count
      && s2.landmarks == DropLabelsOf(s, s.landmarks, id)
      && s2.head == (if |hs| == 1 then None else if k == 0 then Some(hs[1]) else Some(hs[0]))
      && WellFormed(s2) && Symmetric(s2) && SimpleLists(s2) && Linked(s2, hs)
    ensures var t := Unchain(s.(landmarks := DropLabelsOf(s, s.landmarks, s.arena[hs[k]].id)), hs[k]);
      && RemovedFrom(s, t, hs, k)
      && t.arena[hs[k]].next == (if k + 1 < |hs| then Some(hs[k + 1]) else None)
  {
    var p := hs[k];
    var id := s.arena[p].id;
    var s1 := s.(landmarks := DropLabelsOf(s, s.landmarks, id));
    var s2 := MoveHeadPast(s1, id);
    var s4 := Splice(DetachAll(s2, p, s2.arena[p].neighbors), p);
    RemoveMiddle(s2, hs, k);
    var t := Forget(s4, id);
    assert Unchain(s1, p) == t;
    ForgetKeeps(s4, id, hs[..k] + hs[k + 1..]);
    DropAt(hs, k);
  }

  /** Forgetting the ID keeps the points and the links. */
  lemma ForgetKeeps(s: ModelState, id: u32, hs: seq<Handle>)
    ensures var t := Forget(s, id);
      && (WellFormed(s) ==> WellFormed(t))
      && (Symmetric(s) ==> Symmetric(t)) && (SimpleLists(s) ==> SimpleLists(t)) && (Linked(s, hs) ==> Linked(t, hs))
  {
  }

  /** The label loop and the head step: only the labels and possibly the head change,
      and the head is the first point of the shorter chain. */
  lemma RemoveFront(s: ModelState, hs: seq<Handle>, k: nat)
    requires Valid(s, hs) && k < |hs|
    ensures var id := s.arena[hs[k]].id;
      Cursors.TargetsOk(s, s.landmarks) &&
      var s1 := s.(landmarks := DropLabelsOf(s, s.landmarks, id));
      && WellFormed(s1) && s1.head.Some?
      && var s2 := MoveHeadPast(s1, id);
      && s2.arena == s.arena && s2.index == s.index && s2.count == s.count
      && s2.landmarks == DropLabelsOf(s, s.landmarks, id)
      && s2.head == (if |hs| == 1 then None else if k == 0 then Some(hs[1]) else Some(hs[0]))
      && WellFormed(s2) && Symmetric(s2) && SimpleLists(s2) && Linked(s2, hs)
  {
    var id := s.arena[hs[k]].id;
    assert Live(s, hs[k]);
    LabelsBoundTo(s, hs[k]);
    var s1 := s.(landmarks := DropLabelsOf(s, s.landmarks, id));
    FilteredWellFormed(s, id);
    HeadStep(s, hs, k);
    HeadPastWellFormed(s1, id);
  }

  /** Stepping the head past the removed point keeps every handle in range. */
  lemma HeadPastWellFormed(s: ModelState, id: u32)
    requires WellFormed(s) && s.head.Some?
    ensures WellFormed(MoveHeadPast(s, id))
  {
    assert PointOk(s, s.arena[s.head.value]);
  }

  /** The facts gathered step by step give the model invariant after the removal. */
  lemma RemoveAssemble(s: ModelState, hs: seq<Handle>, k: nat, t: ModelState)
    requires Valid(s, hs) && k < |hs| && Cursors.TargetsOk(s, s.landmarks) && RemovedFrom(s, t, hs, k)
    ensures Valid(t, hs[..k] + hs[k + 1..])
  {
    var p := hs[k];
    var hs' := hs[..k] + hs[k + 1..];
    assert Live(s, p);
    RemoveLive(s, t, p);
    DropAt(hs, k);
    LabelsBoundTo(s, p);
    RemoveRest(s, t, p);
    RemoveLabels(s, t, p);
    RemoveCount(s, t, p);
  }

  /** The count follows the ID map down by one. */
  lemma RemoveCount(s: ModelState, t: ModelState, p: Handle)
    requires IndexSound(s) && Live(s, p) && s.count == |s.index|
    requires t.index == s.index - {s.arena[p].id} && t.count == Dec32(s.count)
    ensures t.count == |t.index|
  {
    assert |t.index| == |s.index| - 1;
  }

  /** The neighbour loop and the link repairs on a chain. */
  lemma RemoveMiddle(s: ModelState, hs: seq<Handle>, k: nat)
    requires WellFormed(s) && Symmetric(s) && SimpleLists(s) && Linked(s, hs) && k < |hs|
    ensures var p := hs[k];
      PointOk(s, s.arena[p]) &&
      var s3 := DetachAll(s, p, s.arena[p].neighbors);
      PointOk(s3, s3.arena[p]) &&
      var t := Splice(s3, p);
      && t.index == s.index && t.count == s.count && t.landmarks == s.landmarks && t.head == s.head
      && Isolated(s.arena, t.arena, p)
      && WellFormed(t) && Symmetric(t) && SimpleLists(t)
      && Linked(t, hs[..k] + hs[k + 1..])
      && t.arena[p].next == (if k + 1 < |hs| then Some(hs[k + 1]) else None)
  {
    var p := hs[k];
    assert PointOk(s, s.arena[p]);
    var s3 := DetachAll(s, p, s.arena[p].neighbors);
    DetachComplete(s, p);
    LinkedSame(s, s3, hs);
    SpliceChain(s3, hs, k);
    var t := Splice(s3, p);
    RemoveWellFormed(s3, t, p);
    SpliceNeighbors(s3, t, p, s.arena);
  }

  /** The link repairs leave every neighbour list alone. */
  lemma SpliceNeighbors(s: ModelState, t: ModelState, p: Handle, a: seq<PointRec>)
    requires p < |s.arena| && HandleOk(s, s.arena[p].next) && HandleOk(s, s.arena[p].prev) && t == Splice(s, p)
    requires Symmetric(s) && SimpleLists(s)
    ensures forall g :: 0 <= g < |s.arena| ==> t.arena[g].neighbors == s.arena[g].neighbors
    ensures Symmetric(t) && SimpleLists(t)
    ensures Isolated(a, s.arena, p) ==> Isolated(a, t.arena, p)
  {
  }

  /** A label is bound to the point with p's ID exactly when it is bound to p. */
  lemma LabelsBoundTo(s: ModelState, p: Handle)
    requires WellFormed(s) && IndexSound(s) && LandmarksLive(s) && Live(s, p)
    ensures Cursors.TargetsOk(s, s.landmarks)
    ensures forall i :: 0 <= i < |s.landmarks| ==> (BoundTo(s, s.landmarks[i].1, s.arena[p].id) <==> s.landmarks[i].1 == Some(p))
  {
    forall i | 0 <= i < |s.landmarks| ensures BoundTo(s, s.landmarks[i].1, s.arena[p].id) <==> s.landmarks[i].1 == Some(p) {
      assert Live(s, s.landmarks[i].1.value);
    }
  }

  /** The head test of the removal fires exactly when the head is the removed point. */
  lemma HeadStep(s: ModelState, hs: seq<Handle>, k: nat)
    requires Valid(s, hs) && k < |hs|
    ensures s.head.Some? && s.head.value < |s.arena|
    ensures (s.arena[s.head.value].id == s.arena[hs[k]].id) <==> k == 0
    ensures k == 0 ==> s.arena[s.head.value].next == (if |hs| > 1 then Some(hs[1]) else None)
  {
    assert Live(s, hs[0]) && Live(s, hs[k]);
    assert k != 0 ==> hs[0] != hs[k];
  }

  /** Changing neither next nor prev of any point keeps a chain. */
  lemma LinkedSame(s: ModelState, t: ModelState, hs: seq<Handle>)
    requires Linked(s, hs) && |t.arena| == |s.arena|
    requires forall g :: 0 <= g < |s.arena| ==> t.arena[g].next == s.arena[g].next && t.arena[g].prev == s.arena[g].prev
    ensures Linked(t, hs)
  {
  }

  /** The relinked pointers still point into the arena. */
  lemma RemoveWellFormed(s: ModelState, t: ModelState, p: Handle)
    requires WellFormed(s) && p < |s.arena|
    requires s.arena[p].next != Some(p) && s.arena[p].prev != Some(p)
    requires s.arena[p].next.None? || s.arena[p].next != s.arena[p].prev
    requires t == Splice(s, p)
    ensures WellFormed(t)
  {
    SpliceEffect(s, p);
    var P := s.arena[p];
    forall g | 0 <= g < |t.arena| ensures PointOk(t, t.arena[g]) {
      assert PointOk(s, s.arena[g]);
      assert PointOk(s, P);
    }
  }

  /** A point of the model stays one unless it is the removed point. */
  lemma RemoveLive(s: ModelState, t: ModelState, p: Handle)
    requires IndexSound(s) && Live(s, p) && |t.arena| == |s.arena|
    requires forall g :: 0 <= g < |s.arena| ==> t.arena[g].id == s.arena[g].id
    requires t.index == s.index - {s.arena[p].id}
    ensures forall g: Handle :: Live(t, g) <==> Live(s, g) && g != p
    ensures IndexSound(t)
  {
  }

  /** Neighbours and point shapes after the removal. */
  lemma RemoveRest(s: ModelState, t: ModelState, p: Handle)
    requires NeighborsLive(s) && PointsShaped(s) && Live(s, p) && |t.arena| == |s.arena|
    requires forall g: Handle :: Live(t, g) <==> Live(s, g) && g != p
    requires forall g :: 0 <= g < |s.arena| ==> t.arena[g].features == s.arena[g].features && t.arena[g].flags == s.arena[g].flags
    requires forall g, x :: 0 <= g < |s.arena| ==> (x in t.arena[g].neighbors <==> x in s.arena[g].neighbors && x != p && g != p)
    ensures NeighborsLive(t) && PointsShaped(t)
  {
    forall a: Handle, j | Live(t, a) && 0 <= j < |t.arena[a].neighbors| ensures Live(t, t.arena[a].neighbors[j]) {
      var x := t.arena[a].neighbors[j];
      assert x in s.arena[a].neighbors;
      var j' :| 0 <= j' < |s.arena[a].neighbors| && s.arena[a].neighbors[j'] == x;
    }
  }

  /** The labels after the removal are bound to points of the model, keys unique. */
  lemma RemoveLabels(s: ModelState, t: ModelState, p: Handle)
    requires LandmarksLive(s) && Assoc.Unique(s.landmarks) && Live(s, p)
    requires forall g: Handle :: Live(t, g) <==> Live(s, g) && g != p
    requires forall i :: 0 <= i < |s.landmarks| ==> (BoundTo(s, s.landmarks[i].1, s.arena[p].id) <==> s.landmarks[i].1 == Some(p))
    requires t.landmarks == DropLabelsOf(s, s.landmarks, s.arena[p].id)
    ensures LandmarksLive(t) && Assoc.Unique(t.landmarks)
  {
    DropLabelsFacts(s, s.landmarks, s.arena[p].id);
    forall i | 0 <= i < |t.landmarks| ensures t.landmarks[i].1.Some? && Live(t, t.landmarks[i].1.value) {
      var j :| 0 <= j < |s.landmarks| && s.landmarks[j] == t.landmarks[i];
    }
  }
}
