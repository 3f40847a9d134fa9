// The loops of Cl3DModel and of its point iterator, on the values they walk over:
// each takes the points of the model (or a list) as they are when the loop starts and
// returns what the loop leaves behind, proved equal to the function of Resets,
// Removal or Cursors that describes the whole operation.

module Walks {
  import opened Types
  import opened MeshState
  import Assoc
  import Codec
  import Cursors
  import Removal
  import Resets

  // ----- walks along the chain -------------------------------------------------------
  // Each walk follows m_NextPoint from the head to the tail. The loops work on the points
  // `a` of the model and return them updated; `hs` is the chain from `first`.

  /** The loop of ResetVisitedPoints: each point is marked unvisited. */
  method ClearVisited(a: seq<PointRec>, first: Option<Handle>, ghost s: ModelState, ghost hs: seq<Handle>) returns (b: seq<PointRec>)
    requires a == s.arena && Chain(a, hs) && first.Some? && first == (if hs == [] then None else Some(hs[0]))
    ensures b == Resets.ResetVisited(s, hs).arena
  {
    b := a;
    var actual := first;
    ghost var k := 0;
    assert hs[..0] == [];
    NoVisit(s, []);
    while actual.Some?
      invariant 0 <= k <= |hs|
      invariant actual == if k < |hs| then Some(hs[k]) else None
      invariant b == Resets.ResetVisited(s, hs[..k]).arena
      decreases |hs| - k
    {
      var h := actual.value;
      VisitStep(s, hs, k);
      b := b[h := b[h].(visited := false)];
      actual := b[h].next;
      k := k + 1;
    }
    assert hs[..k] == hs;
  }

  /** The loop of ResetColor: each point takes the colour. */
  method Paint(a: seq<PointRec>, first: Option<Handle>, col: Argb, ghost s: ModelState, ghost hs: seq<Handle>) returns (b: seq<PointRec>)
    requires a == s.arena && Chain(a, hs) && s.head.Some? && first.Some? && first == (if hs == [] then None else Some(hs[0]))
    ensures b == Resets.ResetColor(s, hs, col).arena
  {
    b := a;
    var actual := first;
    ghost var k := 0;
    assert hs[..0] == [];
    NoColor(s, col);
    while actual.Some?
      invariant 0 <= k <= |hs|
      invariant actual == if k < |hs| then Some(hs[k]) else None
      invariant b == Resets.ResetColor(s, hs[..k], col).arena
      decreases |hs| - k
    {
      var h := actual.value;
      ColorStep(s, hs, k, col);
      b := b[h := b[h].(color := col)];
      actual := b[h].next;
      k := k + 1;
    }
    assert hs[..k] == hs;
  }

  /** The loop of ResetModel: the head moves along the chain, and each point it leaves
      loses its neighbour list and both links. */
  method Dismantle(a: seq<PointRec>, first: Option<Handle>, ghost hs: seq<Handle>) returns (b: seq<PointRec>)
    requires Chain(a, hs) && first == (if hs == [] then None else Some(hs[0]))
    ensures b == Resets.Unchained(a, hs)
  {
    b := a;
    var head := first;
    ghost var k := 0;
    UnchainStart(a, hs);
    while head.Some?
      invariant 0 <= k <= |hs|
      invariant head == if k < |hs| then Some(hs[k]) else None
      invariant b == UnchainedUpTo(a, hs, k)
      decreases |hs| - k
    {
      var h := head.value;
      UnchainStep(a, hs, k);
      b := b[h := b[h].(neighbors := [])];
      var next := b[h].next;
      if next.Some? {
        b := b[next.value := b[next.value].(prev := None)];
      }
      b := b[h := b[h].(next := None)];
      head := next;
      k := k + 1;
    }
    UnchainEnd(a, hs);
  }

  // ----- RemovePointFromModel --------------------------------------------------------

  /** The label loop of RemovePointFromModel, run to the end: the labels that are not
      bound to a point carrying `id`, in order. A null binding throws, and the labels
      are only replaced once the loop is over, so nothing has changed then. */
  method KeptLabels(lm: Assoc.Dict<string, Option<Handle>>, a: seq<PointRec>, id: u32, ghost s: ModelState)
    returns (r: Result<Assoc.Dict<string, Option<Handle>>>)
    requires s.arena == a && Cursors.TargetsOk(s, lm)
    ensures r.Err? <==> Removal.HasNullLabel(lm)
    ensures r.Err? ==> r.error == NullReference
    ensures r.Ok? ==> r.value == Removal.DropLabelsOf(s, lm, id)
  {
    var kept := [];
    var i := 0;
    while i < |lm|
      invariant 0 <= i <= |lm|
      invariant forall j :: 0 <= j < i ==> lm[j].1.Some?
      invariant kept + Removal.DropLabelsOf(s, lm[i..], id) == Removal.DropLabelsOf(s, lm, id)
    {
      var b := lm[i].1;
      if b.None? {
        return Err(NullReference);
      }
      DropStep(s, lm, i, id);
      if a[b.value].id != id {
        kept := kept + [lm[i]];
      }
      i := i + 1;
    }
    assert lm[i..] == [];
    r := Ok(kept);
  }

  /** The neighbour loop of RemovePointFromModel over the list taken before it starts:
      each neighbour n drops p, then p drops n. */
  method DetachNeighbors(a: seq<PointRec>, p: Handle, ghost s: ModelState) returns (b: seq<PointRec>)
    requires s.arena == a && p < |a| && forall j :: 0 <= j < |a[p].neighbors| ==> a[p].neighbors[j] < |a|
    ensures b == Removal.DetachAll(s, p, a[p].neighbors).arena
  {
    var ns := a[p].neighbors;
    b := a;
    var j := 0;
    assert ns[..0] == [];
    while j < |ns|
      invariant 0 <= j <= |ns|
      invariant b == Removal.DetachAll(s, p, ns[..j]).arena
    {
      var n := ns[j];
      DetachStep(s, p, ns, j, b);
      b := b[n := b[n].(neighbors := RemoveFirst(b[n].neighbors, p))];
      b := b[p := b[p].(neighbors := RemoveFirst(b[p].neighbors, n))];
      j := j + 1;
    }
    assert ns[..j] == ns;
  }

  /** RemovePointFromModel after the label loop, on the points and the head: the head
      moves on if it carries p's ID, the neighbours unlink themselves, and the chain is
      spliced around p (successor first, then predecessor). */
  method Unthread(a: seq<PointRec>, head: Option<Handle>, p: Handle, ghost s: ModelState)
    returns (b: seq<PointRec>, first: Option<Handle>)
    requires s.arena == a && s.head == head && WellFormed(s) && p < |a| && head.Some?
    ensures var t := Removal.Unchain(s, p); b == t.arena && first == t.head
  {
    var id := a[p].id;
    first := head;
    if a[head.value].id == id {
      first := a[head.value].next;
    }
    ghost var m := Removal.MoveHeadPast(s, id);
    assert PointOk(s, a[p]);
    b := DetachNeighbors(a, p, m);
    ghost var d := Removal.DetachAll(m, p, a[p].neighbors);
    assert b == d.arena && d.arena[p].next == a[p].next && d.arena[p].prev == a[p].prev;
    var P := b[p];
    if P.next.Some? {
      b := b[P.next.value := b[P.next.value].(prev := P.prev)];
    }
    var Q := b[p];
    if Q.prev.Some? {
      b := b[Q.prev.value := b[Q.prev.value].(next := Q.next)];
    }
  }

  // ----- scans over labels, neighbours and features ---------------------------------

  /** The label loop of IsLabeled and IsThisPointInSpecificPoints: the first label, in
      table order, bound to a point carrying `id`; a null binding met first throws. */
  method FindLabel(lm: Assoc.Dict<string, Option<Handle>>, a: seq<PointRec>, id: u32, ghost s: ModelState)
    returns (r: Result<Option<string>>)
    requires s.arena == a && Cursors.TargetsOk(s, lm)
    ensures r == Cursors.FirstLabelOf(s, lm, id)
  {
    var i := 0;
    while i < |lm|
      invariant 0 <= i <= |lm| && Cursors.TargetsOk(s, lm[i..])
      invariant Cursors.FirstLabelOf(s, lm[i..], id) == Cursors.FirstLabelOf(s, lm, id)
    {
      LabelStep(s, lm, i, id);
      var b := lm[i].1;
      if b.None? {
        return Err(NullReference);
      }
      if a[b.value].id == id {
        return Ok(Some(lm[i].0));
      }
      i := i + 1;
    }
    return Ok(None);
  }

  /** The loop of IsPointInNeighbors (and of AddNeighbor's duplicate check): whether a
      point of the list carries `id`. */
  method ScanNeighbors(a: seq<PointRec>, ns: seq<Handle>, id: u32, ghost s: ModelState) returns (found: bool)
    requires s.arena == a && forall j :: 0 <= j < |ns| ==> ns[j] < |a|
    ensures found == Cursors.HasNeighborWithId(s, ns, id)
  {
    var j := 0;
    while j < |ns|
      invariant 0 <= j <= |ns|
      invariant forall k :: 0 <= k < j ==> a[ns[k]].id != id
    {
      if a[ns[j]].id == id {
        return true;
      }
      j := j + 1;
    }
    return false;
  }

  /** The loop of GetListOfNeighbors: one cursor per neighbour, in list order. */
  method NeighborCursors(ns: seq<Handle>) returns (r: seq<Cursor>)
    ensures |r| == |ns| && forall j :: 0 <= j < |ns| ==> r[j] == Some(ns[j])
  {
    r := [];
    var j := 0;
    while j < |ns|
      invariant 0 <= j <= |ns| && |r| == j
      invariant forall k :: 0 <= k < j ==> r[k] == Some(ns[k])
    {
      r := r + [Some(ns[j])];
      j := j + 1;
    }
  }

  /** The loop of GetListOfSpecificValues: the feature names in enumeration order. */
  method FeatureNames(fs: Assoc.Dict<string, Double>) returns (r: seq<string>)
    ensures r == Assoc.Keys(fs)
  {
    r := [];
    var i := 0;
    while i < |fs|
      invariant 0 <= i <= |fs| && |r| == i
      invariant forall k :: 0 <= k < i ==> r[k] == fs[k].0
    {
      r := r + [fs[i].0];
      i := i + 1;
    }
  }

  /** The loop of GetAllSpecificPoints: one (label, iterator) pair per table entry. */
  method LabelPairs(lm: Assoc.Dict<string, Option<Handle>>) returns (r: seq<(string, Cursor)>)
    ensures r == lm
  {
    r := [];
    var i := 0;
    while i < |lm|
      invariant 0 <= i <= |lm| && r == lm[..i]
    {
      r := r + [(lm[i].0, lm[i].1)];
      i := i + 1;
    }
  }

  // ----- the loops of SaveModel -------------------------------------------------------

  /** The label loop of SaveModel: each label with the ID of its point, in table order;
      a label bound to null throws. */
  method SavedLabels(lm: Assoc.Dict<string, Option<Handle>>, a: seq<PointRec>, ghost s: ModelState)
    returns (r: Result<seq<(string, u32)>>)
    requires s.arena == a && forall i :: 0 <= i < |lm| && lm[i].1.Some? ==> lm[i].1.value < |a|
    ensures r == Codec.LabelIds(s, lm)
  {
    var acc := [];
    var i := 0;
    while i < |lm|
      invariant 0 <= i <= |lm| && |acc| == i
      invariant forall k :: 0 <= k < i ==> lm[k].1.Some? && acc[k] == (lm[k].0, a[lm[k].1.value].id)
    {
      if lm[i].1.None? {
        assert Codec.LabelIds(s, lm).Err?;
        return Err(NullReference);
      }
      acc := acc + [(lm[i].0, a[lm[i].1.value].id)];
      i := i + 1;
    }
    ghost var l := Codec.LabelIds(s, lm);
    assert l.Ok? && |l.value| == |acc|;
    assert forall k :: 0 <= k < |acc| ==> l.value[k] == acc[k];
    assert l.value == acc;
    return Ok(acc);
  }

  /** The walk of SaveModel: one record per point, in chain order, with its neighbours
      by ID (what SaveMe writes). */
  method SavedPoints(a: seq<PointRec>, first: Option<Handle>, ghost s: ModelState, ghost hs: seq<Handle>)
    returns (ps: seq<Codec.PointFile>)
    requires a == s.arena && WellFormed(s) && Chain(a, hs) && first == (if hs == [] then None else Some(hs[0]))
    ensures |ps| == |hs|
    ensures forall k :: 0 <= k < |hs| ==> PointOk(s, a[hs[k]]) && ps[k] == Codec.PointFileOf(a, a[hs[k]])
  {
    ps := [];
    var actual := first;
    ghost var k := 0;
    while actual.Some?
      invariant 0 <= k <= |hs| && |ps| == k
      invariant actual == if k < |hs| then Some(hs[k]) else None
      invariant forall j :: 0 <= j < k ==> PointOk(s, a[hs[j]]) && ps[j] == Codec.PointFileOf(a, a[hs[j]])
      decreases |hs| - k
    {
      var h := actual.value;
      assert PointOk(s, a[h]);
      ps := ps + [Codec.PointFileOf(a, a[h])];
      actual := a[h].next;
      k := k + 1;
    }
  }

  // ----- lemmas for the walks ---------------------------------------------------------

  lemma NoVisit(s: ModelState, hs: seq<Handle>)
    requires hs == []
    ensures Resets.ResetVisited(s, hs) == s
  {
    assert Resets.ResetVisited(s, hs).arena == s.arena;
  }

  lemma NoColor(s: ModelState, col: Argb)
    requires s.head.Some?
    ensures Resets.ResetColor(s, [], col).arena == s.arena
  {
    assert Resets.ResetColor(s, [], col).arena == s.arena;
  }

  /** One more point of the chain marked unvisited. */
  lemma VisitStep(s: ModelState, hs: seq<Handle>, k: nat)
    requires Chain(s.arena, hs) && k < |hs|
    ensures var t := Resets.ResetVisited(s, hs[..k]).arena;
      && hs[k] < |t| && t[hs[k]].next == (if k + 1 < |hs| then Some(hs[k + 1]) else None)
      && Resets.ResetVisited(s, hs[..k + 1]).arena == t[hs[k] := t[hs[k]].(visited := false)]
  {
    var t := Resets.ResetVisited(s, hs[..k]);
    var u := Resets.ResetVisited(s, hs[..k + 1]);
    assert hs[..k + 1] == hs[..k] + [hs[k]];
    assert u.arena == t.arena[hs[k] := t.arena[hs[k]].(visited := false)];
  }

  /** One more point of the chain coloured. */
  lemma ColorStep(s: ModelState, hs: seq<Handle>, k: nat, col: Argb)
    requires Chain(s.arena, hs) && k < |hs| && s.head.Some?
    ensures var t := Resets.ResetColor(s, hs[..k], col).arena;
      && hs[k] < |t| && t[hs[k]].next == (if k + 1 < |hs| then Some(hs[k + 1]) else None)
      && Resets.ResetColor(s, hs[..k + 1], col).arena == t[hs[k] := t[hs[k]].(color := col)]
  {
    var t := Resets.ResetColor(s, hs[..k], col);
    var u := Resets.ResetColor(s, hs[..k + 1], col);
    assert hs[..k + 1] == hs[..k] + [hs[k]];
    assert u.arena == t.arena[hs[k] := t.arena[hs[k]].(color := col)];
  }

  /** The arena while ResetModel's loop is at the k-th point of the chain: the points
      before it are taken apart, and the k-th has lost its predecessor link. */
  ghost function UnchainedUpTo(A: seq<PointRec>, hs: seq<Handle>, k: nat): seq<PointRec>
    requires k <= |hs| && forall i :: 0 <= i < |hs| ==> hs[i] < |A|
  {
    var a := Resets.Unchained(A, hs[..k]);
    if k < |hs| then a[hs[k] := A[hs[k]].(prev := None)] else a
  }

  lemma UnchainStart(A: seq<PointRec>, hs: seq<Handle>)
    requires Chain(A, hs)
    ensures UnchainedUpTo(A, hs, 0) == A
  {
    assert hs[..0] == [];
    assert Resets.Unchained(A, []) == A;
  }

  lemma UnchainEnd(A: seq<PointRec>, hs: seq<Handle>)
    requires forall i :: 0 <= i < |hs| ==> hs[i] < |A|
    ensures UnchainedUpTo(A, hs, |hs|) == Resets.Unchained(A, hs)
  {
    assert hs[..|hs|] == hs;
  }

  /** One round of ResetModel's loop. */
  lemma UnchainStep(A: seq<PointRec>, hs: seq<Handle>, k: nat)
    requires Chain(A, hs) && k < |hs|
    ensures var a, h := UnchainedUpTo(A, hs, k), hs[k];
      && h < |a|
      && var a1 := a[h := a[h].(neighbors := [])];
      && var next := a1[h].next;
      && next == (if k + 1 < |hs| then Some(hs[k + 1]) else None)
      && (next.Some? ==> next.value < |a1|)
      && var a2 := if next.Some? then a1[next.value := a1[next.value].(prev := None)] else a1;
      && a2[h := a2[h].(next := None)] == UnchainedUpTo(A, hs, k + 1)
  {
    var a, h := UnchainedUpTo(A, hs, k), hs[k];
    var b := Resets.Unchained(A, hs[..k]);
    var c := Resets.Unchained(A, hs[..k + 1]);
    assert hs[..k + 1] == hs[..k] + [hs[k]];
    assert h !in hs[..k];
    assert b[h] == A[h];
    assert c == b[h := A[h].(neighbors := [], next := None, prev := None)];
    if k + 1 < |hs| {
      assert hs[k + 1] !in hs[..k + 1];
    } else {
      assert hs[..k + 1] == hs;
    }
  }

  /** One label of RemovePointFromModel's loop. */
  lemma DropStep(s: ModelState, lm: Assoc.Dict<string, Option<Handle>>, i: nat, id: u32)
    requires i < |lm|
    ensures Removal.DropLabelsOf(s, lm[i..], id)
      == (if Removal.BoundTo(s, lm[i].1, id) then [] else [lm[i]]) + Removal.DropLabelsOf(s, lm[i + 1..], id)
  {
    assert lm[i..][1..] == lm[i + 1..];
  }

  /** One neighbour of RemovePointFromModel's loop unlinking itself. */
  lemma DetachStep(s: ModelState, p: Handle, ns: seq<Handle>, j: nat, b: seq<PointRec>)
    requires p < |s.arena| && j < |ns| && forall i :: 0 <= i < |ns| ==> ns[i] < |s.arena|
    requires b == Removal.DetachAll(s, p, ns[..j]).arena
    ensures p < |b| && ns[j] < |b|
    ensures var n := ns[j];
      var b1 := b[n := b[n].(neighbors := RemoveFirst(b[n].neighbors, p))];
      Removal.DetachAll(s, p, ns[..j + 1]).arena == b1[p := b1[p].(neighbors := RemoveFirst(b1[p].neighbors, n))]
  {
    Removal.DetachAllLast(s, p, ns, j + 1);
    assert ns[..j + 1][..j] == ns[..j];
  }

  /** One label of the scan of FirstLabelOf. */
  lemma LabelStep(s: ModelState, lm: Assoc.Dict<string, Option<Handle>>, i: nat, id: u32)
    requires i < |lm| && Cursors.TargetsOk(s, lm[i..])
    ensures Cursors.TargetsOk(s, lm[i + 1..])
    ensures Cursors.FirstLabelOf(s, lm[i..], id) ==
      if lm[i].1.None? then Err(NullReference)
      else if s.arena[lm[i].1.value].id == id then Ok(Some(lm[i].0))
      else Cursors.FirstLabelOf(s, lm[i + 1..], id)
  {
    assert lm[i..][1..] == lm[i + 1..];
    assert lm[i..][0] == lm[i];
  }
}
