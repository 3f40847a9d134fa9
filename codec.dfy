// The .binaryModel format: SaveModel with Cl3DModelPoint.SaveMe, and
// LoadInternalModelType with Cl3DModelPoint.LoadPoint. Each BinaryWriter.Write and
// BinaryReader.ReadX call is one typed token; reading a token of another kind than
// the one expected is an error here, where the byte reader would reinterpret bytes.

module Codec {
  import opened Types
  import opened MeshState
  import opened Text
  import Names
  import Assoc

  datatype Token = TStr(str: string) | TU32(u: u32) | TI32(i: i32) | TSingle(f: Single) | TBool(b: bool) | TF64(d: Double)

  /** m_iSupportedFileVersion: the version SaveModel writes and the highest one read. */
  const SupportedVersion: u32 := 5

  const VersionTag: string := "FileVersion:"
  const Signature: string := " Przemyslaw Szeptycki 2011, pszeptycki@gmail.com\n"

  /** A header line as SaveModel writes it, announcing version n. */
  function HeaderFor(n: u32): string {
    VersionTag + " " + DecimalString(n) + "," + Signature
  }

  /** The header line SaveModel writes. */
  const Header: string := HeaderFor(SupportedVersion)

  /** One point record as SaveMe writes it and LoadPoint reads it; neighbours are
      written by ID. */
  datatype PointFile = PointFile(
    id: u32, x: Single, y: Single, z: Single, rangeX: i32, rangeY: i32,
    visited: bool, color: Argb, u: Single, v: Single,
    neighbors: seq<u32>, features: Assoc.Dict<string, Double>)

  /** What SaveModel writes after the header: labels by point ID, points in chain order. */
  datatype FileModel = FileModel(
    path: string, modelType: string, nextId: u32, count: u32, expression: string,
    history: seq<string>, labels: seq<(string, u32)>, points: seq<PointFile>)

  /** What LoadInternalModelType reads from a file of the given version, before the
      points are linked: the expression and the history only where the version has
      them, the labels after the duplicate handling of that version. */
  datatype Decoded = Decoded(
    version: u32, modelType: string, nextId: u32, count: u32, expression: Option<string>,
    history: seq<string>, labels: Assoc.Dict<string, u32>, points: seq<PointFile>)

  // ---------------------------------------------------------------- header

  /** The version in the header: the header is split on ',' and its first piece on ' ';
      when that starts with "FileVersion:" the next word is parsed (UInt32.Parse), and
      otherwise the model's previous version stays. A version above the supported one
      is refused. */
  function ParseVersion(header: string, previous: u32): (r: Result<u32>)
    ensures r.Ok? ==> r.value <= SupportedVersion
  {
    var words := Split(Split(header, ',')[0], ' ');
    var v :- if words[0] == VersionTag then
               if |words| < 2 then Err(OutOfRange)
               else match ParseU32(words[1])
                 case None => Err(MalformedHeader)
                 case Some(n) => Ok(n)
             else Ok(previous);
    if v > SupportedVersion then Err(UnsupportedVersion) else Ok(v)
  }

  /** A header written for version n is read back as n when n is supported, and
      refused otherwise, whatever version the model held before. */
  lemma HeaderRoundTrip(n: u32, previous: u32)
    ensures n <= SupportedVersion ==> ParseVersion(HeaderFor(n), previous) == Ok(n)
    ensures n > SupportedVersion ==> ParseVersion(HeaderFor(n), previous) == Err(UnsupportedVersion)
  {
    HeaderWords(n);
    ParseDecimal(n);
  }

  /** The header's first piece splits into the tag and the version's digits. */
  lemma HeaderWords(n: u32)
    ensures Split(Split(HeaderFor(n), ',')[0], ' ') == [VersionTag, DecimalString(n)]
  {
    TagNoSpace();
    DigitsNoSeparator(n);
    FirstPiece(VersionTag, DecimalString(n), Signature);
  }

  /** "tag word,rest" with neither separator in the tag or the word. */
  lemma FirstPiece(tag: string, word: string, rest: string)
    requires ' ' !in tag && ',' !in tag && ' ' !in word && ',' !in word
    ensures Split(Split(tag + " " + word + "," + rest, ',')[0], ' ') == [tag, word]
  {
    var first := tag + [' '] + word;
    assert tag + " " + word + "," + rest == first + [','] + rest;
    assert ',' !in first by {
      forall i | 0 <= i < |first| ensures first[i] != ',' {
        if i < |tag| { assert first[i] == tag[i]; }
        else if i > |tag| { assert first[i] == word[i - |tag| - 1]; }
      }
    }
    SplitFirst(first, ',', rest);
    SplitFirst(tag, ' ', word);
    SplitNone(word, ' ');
  }

  lemma TagNoSpace()
    ensures ' ' !in VersionTag && ',' !in VersionTag
  {
    forall i | 0 <= i < |VersionTag| ensures VersionTag[i] != ' ' && VersionTag[i] != ',' { }
  }

  /** The header SaveModel writes announces version 5. */
  lemma HeaderVersion(previous: u32)
    ensures ParseVersion(Header, previous) == Ok(SupportedVersion)
  {
    HeaderRoundTrip(SupportedVersion, previous);
  }

  /** A header that does not start with "FileVersion:" leaves the previous version,
      which is then checked like a parsed one. */
  lemma ForeignHeaderKeepsVersion(header: string, previous: u32)
    requires Split(Split(header, ',')[0], ' ')[0] != VersionTag
    ensures previous <= SupportedVersion ==> ParseVersion(header, previous) == Ok(previous)
    ensures previous > SupportedVersion ==> ParseVersion(header, previous) == Err(UnsupportedVersion)
  {
  }

  lemma DigitsNoSeparator(n: nat)
    ensures ',' !in DecimalString(n) && ' ' !in DecimalString(n)
  {
    var d := DecimalString(n);
    forall i | 0 <= i < |d| ensures d[i] != ',' && d[i] != ' ' {
      assert IsDigit(d[i]);
    }
  }

  // ---------------------------------------------------------------- writing

  /** A List or Dictionary Count, written with Write(int). */
  predicate CountFits(n: nat) { n < TWO31 }

  predicate PointFits(p: PointFile) {
    CountFits(|p.neighbors|) && CountFits(|p.features|)
  }

  predicate Fits(f: FileModel) {
    && CountFits(|f.history|) && CountFits(|f.labels|)
    && forall k :: 0 <= k < |f.points| ==> PointFits(f.points[k])
  }

  function EncodeIds(ids: seq<u32>): (ts: seq<Token>)
    ensures |ts| == |ids|
  {
    if ids == [] then [] else [TU32(ids[0])] + EncodeIds(ids[1..])
  }

  function EncodeFeatures(fs: Assoc.Dict<string, Double>): (ts: seq<Token>)
    ensures |ts| == 2 * |fs|
  {
    if fs == [] then [] else [TStr(fs[0].0), TF64(fs[0].1)] + EncodeFeatures(fs[1..])
  }

  function EncodeStrs(xs: seq<string>): (ts: seq<Token>)
    ensures |ts| == |xs|
  {
    if xs == [] then [] else [TStr(xs[0])] + EncodeStrs(xs[1..])
  }

  function EncodeLabels(ls: seq<(string, u32)>): (ts: seq<Token>)
    ensures |ts| == 2 * |ls|
  {
    if ls == [] then [] else [TStr(ls[0].0), TU32(ls[0].1)] + EncodeLabels(ls[1..])
  }

  /** The fields SaveMe writes before the neighbour list. */
  function EncodeFixed(p: PointFile): (ts: seq<Token>)
    ensures |ts| == 10
  {
    [TU32(p.id), TSingle(p.x), TSingle(p.y), TSingle(p.z), TI32(p.rangeX), TI32(p.rangeY),
     TBool(p.visited), TI32(p.color), TSingle(p.u), TSingle(p.v)]
  }

  /** SaveMe: the fixed fields, the neighbour IDs and the features, each list after its
      count. */
  function EncodePoint(p: PointFile): seq<Token>
    requires PointFits(p)
  {
    EncodeFixed(p) + [TI32(|p.neighbors|)] + EncodeIds(p.neighbors) + [TI32(|p.features|)] + EncodeFeatures(p.features)
  }

  function EncodePoints(ps: seq<PointFile>): seq<Token>
    requires forall k :: 0 <= k < |ps| ==> PointFits(ps[k])
  {
    if ps == [] then [] else EncodePoint(ps[0]) + EncodePoints(ps[1..])
  }

  /** SaveModel up to the labels: header, path, type, ID counter, point count,
      expression and history. */
  function EncodePreamble(f: FileModel): (ts: seq<Token>)
    requires CountFits(|f.history|)
    ensures |ts| == 7 + |f.history|
  {
    [TStr(Header), TStr(f.path), TStr(f.modelType), TU32(f.nextId), TU32(f.count), TStr(f.expression),
     TI32(|f.history|)] + EncodeStrs(f.history)
  }

  /** SaveModel: the preamble, the labels, then the points in chain order. */
  function Encode(f: FileModel): seq<Token>
    requires Fits(f)
  {
    EncodePreamble(f) + [TI32(|f.labels|)] + EncodeLabels(f.labels) + EncodePoints(f.points)
  }

  /** The record SaveMe writes for a point: its fields and its neighbours' IDs. */
  function PointFileOf(a: seq<PointRec>, p: PointRec): (r: PointFile)
    requires forall j :: 0 <= j < |p.neighbors| ==> p.neighbors[j] < |a|
    ensures |r.neighbors| == |p.neighbors|
    ensures forall j :: 0 <= j < |p.neighbors| ==> r.neighbors[j] == a[p.neighbors[j]].id
  {
    PointFile(p.id, p.x, p.y, p.z, p.rangeX, p.rangeY, p.visited, p.color, p.u, p.v,
              seq(|p.neighbors|, j requires 0 <= j < |p.neighbors| => a[p.neighbors[j]].id),
              p.features)
  }

  /** The labels as SaveModel writes them, by point ID; a null binding throws. */
  function LabelIds(s: ModelState, lm: Assoc.Dict<string, Option<Handle>>): (r: Result<seq<(string, u32)>>)
    requires forall i :: 0 <= i < |lm| && lm[i].1.Some? ==> lm[i].1.value < |s.arena|
    ensures r.Err? <==> exists i :: 0 <= i < |lm| && lm[i].1.None?
    ensures r.Err? ==> r.error == NullReference
    ensures r.Ok? ==> |r.value| == |lm| && forall i :: 0 <= i < |lm| ==>
      lm[i].1.Some? && r.value[i] == (lm[i].0, s.arena[lm[i].1.value].id)
  {
    if lm == [] then Ok([])
    else if lm[0].1.None? then Err(NullReference)
    else
      var rest := LabelIds(s, lm[1..]);
      assert (exists i :: 0 <= i < |lm| && lm[i].1.None?) <==> (exists i :: 0 <= i < |lm[1..]| && lm[1..][i].1.None?) by {
        if exists i :: 0 <= i < |lm| && lm[i].1.None? {
          var i :| 0 <= i < |lm| && lm[i].1.None?;
          assert lm[1..][i - 1] == lm[i];
        }
      }
      if rest.Err? then rest else Ok([(lm[0].0, s.arena[lm[0].1.value].id)] + rest.value)
  }

  /** What SaveModel writes for the chain hs. The stored count is the count field, not
      the number of points the loop writes. */
  function Snapshot(s: ModelState, hs: seq<Handle>): (r: Result<FileModel>)
    requires WellFormed(s) && forall k :: 0 <= k < |hs| ==> hs[k] < |s.arena|
    ensures r.Err? <==> exists i :: 0 <= i < |s.landmarks| && s.landmarks[i].1.None?
  {
    var labels :- LabelIds(s, s.landmarks);
    Ok(FileModel(s.path, s.modelType, s.nextId, s.count, s.expression, s.history, labels,
                 seq(|hs|, k requires 0 <= k < |hs| => assert PointOk(s, s.arena[hs[k]]); PointFileOf(s.arena, s.arena[hs[k]]))))
  }

  // ---------------------------------------------------------------- reading

  function Next(ts: seq<Token>, pos: nat): (r: Result<Token>)
    ensures r.Ok? <==> pos < |ts|
    ensures r.Ok? ==> r.value == ts[pos]
    ensures r.Err? ==> r.error == EndOfStream
  {
    if pos < |ts| then Ok(ts[pos]) else Err(EndOfStream)
  }

  function ReadStr(ts: seq<Token>, pos: nat): (r: Result<string>)
    ensures r.Ok? <==> pos < |ts| && ts[pos].TStr?
    ensures r.Ok? ==> r.value == ts[pos].str
    ensures r.Err? ==> r.error == (if pos < |ts| then WrongToken else EndOfStream)
  {
    var t :- Next(ts, pos); if t.TStr? then Ok(t.str) else Err(WrongToken)
  }

  function ReadU32(ts: seq<Token>, pos: nat): (r: Result<u32>)
    ensures r.Ok? <==> pos < |ts| && ts[pos].TU32?
    ensures r.Ok? ==> r.value == ts[pos].u
    ensures r.Err? ==> r.error == (if pos < |ts| then WrongToken else EndOfStream)
  {
    var t :- Next(ts, pos); if t.TU32? then Ok(t.u) else Err(WrongToken)
  }

  function ReadI32(ts: seq<Token>, pos: nat): (r: Result<i32>)
    ensures r.Ok? <==> pos < |ts| && ts[pos].TI32?
    ensures r.Ok? ==> r.value == ts[pos].i
    ensures r.Err? ==> r.error == (if pos < |ts| then WrongToken else EndOfStream)
  {
    var t :- Next(ts, pos); if t.TI32? then Ok(t.i) else Err(WrongToken)
  }

  function ReadSingle(ts: seq<Token>, pos: nat): (r: Result<Single>)
    ensures r.Ok? <==> pos < |ts| && ts[pos].TSingle?
    ensures r.Ok? ==> r.value == ts[pos].f
    ensures r.Err? ==> r.error == (if pos < |ts| then WrongToken else EndOfStream)
  {
    var t :- Next(ts, pos); if t.TSingle? then Ok(t.f) else Err(WrongToken)
  }

  function ReadBool(ts: seq<Token>, pos: nat): (r: Result<bool>)
    ensures r.Ok? <==> pos < |ts| && ts[pos].TBool?
    ensures r.Ok? ==> r.value == ts[pos].b
    ensures r.Err? ==> r.error == (if pos < |ts| then WrongToken else EndOfStream)
  {
    var t :- Next(ts, pos); if t.TBool? then Ok(t.b) else Err(WrongToken)
  }

  function ReadF64(ts: seq<Token>, pos: nat): (r: Result<Double>)
    ensures r.Ok? <==> pos < |ts| && ts[pos].TF64?
    ensures r.Ok? ==> r.value == ts[pos].d
    ensures r.Err? ==> r.error == (if pos < |ts| then WrongToken else EndOfStream)
  {
    var t :- Next(ts, pos); if t.TF64? then Ok(t.d) else Err(WrongToken)
  }

  /** A count read with ReadInt32 bounds a for loop: a negative one runs no iteration. */
  function Clamp(n: i32): (k: nat)
    ensures n >= 0 ==> k == n
    ensures n < 0 ==> k == 0
  {
    if n < 0 then 0 else n
  }

  /** n IDs (LoadPoint's neighbour loop); the result carries the position after them. */
  function ReadIds(ts: seq<Token>, pos: nat, n: nat): (r: Result<(seq<u32>, nat)>)
    ensures r.Ok? ==> |r.value.0| == n && r.value.1 == pos + n
    decreases n
  {
    if n == 0 then Ok(([], pos))
    else
      var id :- ReadU32(ts, pos);
      var rest :- ReadIds(ts, pos + 1, n - 1);
      Ok(([id] + rest.0, rest.1))
  }

  /** n history entries (the history loop of a version 5 file). */
  function ReadStrs(ts: seq<Token>, pos: nat, n: nat): (r: Result<(seq<string>, nat)>)
    ensures r.Ok? ==> |r.value.0| == n && r.value.1 == pos + n
    decreases n
  {
    if n == 0 then Ok(([], pos))
    else
      var x :- ReadStr(ts, pos);
      var rest :- ReadStrs(ts, pos + 1, n - 1);
      Ok(([x] + rest.0, rest.1))
  }

  /** The feature name: an eSpecificValues code, by its name, at version 0; a string
      after. */
  function ReadFeatureName(ts: seq<Token>, pos: nat, version: u32): (r: Result<string>)
    ensures version == 0 ==> r == (var c :- ReadI32(ts, pos); Ok(Names.ValueName(c)))
    ensures version != 0 ==> r == ReadStr(ts, pos)
  {
    if version == 0 then
      var code :- ReadI32(ts, pos);
      Ok(Names.ValueName(code))
    else
      ReadStr(ts, pos)
  }

  /** n features added one by one to acc with Dictionary.Add: a repeated name throws. */
  function ReadFeatures(ts: seq<Token>, pos: nat, n: nat, version: u32, acc: Assoc.Dict<string, Double>): (r: Result<(Assoc.Dict<string, Double>, nat)>)
    requires Assoc.Unique(acc)
    ensures r.Ok? ==> Assoc.Unique(r.value.0) && |r.value.0| == |acc| + n && r.value.1 == pos + 2 * n
    decreases n
  {
    if n == 0 then Ok((acc, pos))
    else
      var name :- ReadFeatureName(ts, pos, version);
      var value :- ReadF64(ts, pos + 1);
      var acc' :- Assoc.Add(acc, name, value);
      Assoc.AppendUnique(acc, name, value);
      ReadFeatures(ts, pos + 2, n - 1, version, acc')
  }

  /** The fields LoadPoint reads before the neighbour list: U and V only from version 3
      on, 0 before. The point comes back without neighbours or features. */
  function ReadFixed(ts: seq<Token>, pos: nat, version: u32): (r: Result<(PointFile, nat)>)
    ensures r.Ok? ==> r.value.0.neighbors == [] && r.value.0.features == []
    ensures r.Ok? && !(3 <= version <= 5) ==> r.value.0.u == PositiveZero && r.value.0.v == PositiveZero && r.value.1 == pos + 8
    ensures r.Ok? && 3 <= version <= 5 ==> r.value.1 == pos + 10
  {
    var id :- ReadU32(ts, pos);
    var x :- ReadSingle(ts, pos + 1);
    var y :- ReadSingle(ts, pos + 2);
    var z :- ReadSingle(ts, pos + 3);
    var rx :- ReadI32(ts, pos + 4);
    var ry :- ReadI32(ts, pos + 5);
    var visited :- ReadBool(ts, pos + 6);
    var color :- ReadI32(ts, pos + 7);
    if 3 <= version <= 5 then
      var u :- ReadSingle(ts, pos + 8);
      var v :- ReadSingle(ts, pos + 9);
      Ok((PointFile(id, x, y, z, rx, ry, visited, color, u, v, [], []), pos + 10))
    else Ok((PointFile(id, x, y, z, rx, ry, visited, color, PositiveZero, PositiveZero, [], []), pos + 8))
  }

  /** LoadPoint: the fixed fields, then the neighbour IDs and the features, each list
      after its count. */
  function ReadPoint(ts: seq<Token>, pos: nat, version: u32): (r: Result<(PointFile, nat)>)
    ensures r.Ok? ==> Assoc.Unique(r.value.0.features)
    ensures r.Ok? && !(3 <= version <= 5) ==> r.value.0.u == PositiveZero && r.value.0.v == PositiveZero
  {
    var fixed :- ReadFixed(ts, pos, version);
    var n :- ReadI32(ts, fixed.1);
    var ids :- ReadIds(ts, fixed.1 + 1, Clamp(n));
    var m :- ReadI32(ts, ids.1);
    var fs :- ReadFeatures(ts, ids.1 + 1, Clamp(m), version, []);
    Ok((fixed.0.(neighbors := ids.0, features := fs.0), fs.1))
  }

  function IdsOf(ps: seq<PointFile>): (ids: seq<u32>)
    ensures |ids| == |ps| && forall k :: 0 <= k < |ps| ==> ids[k] == ps[k].id
  {
    seq(|ps|, k requires 0 <= k < |ps| => ps[k].id)
  }

  /** The staging loop: n points read one after the other, each added to the staging
      dictionary under its ID, which throws on an ID read before. It yields exactly n
      more points, with pairwise distinct IDs and distinct feature names. */
  function ReadPoints(ts: seq<Token>, pos: nat, n: nat, version: u32, acc: seq<PointFile>): (r: Result<(seq<PointFile>, nat)>)
    ensures r.Ok? ==> |r.value.0| == |acc| + n
    decreases n
  {
    if n == 0 then Ok((acc, pos))
    else
      var p :- ReadPoint(ts, pos, version);
      if p.0.id in IdsOf(acc) then Err(DuplicateKey)
      else ReadPoints(ts, p.1, n - 1, version, acc + [p.0])
  }

  /** The point loop keeps what was staged before it, stages no ID twice, and every
      point it stages has distinct feature names. */
  lemma {:induction false} ReadPointsWell(ts: seq<Token>, pos: nat, n: nat, version: u32, acc: seq<PointFile>)
    requires NoDup(IdsOf(acc))
    ensures var r := ReadPoints(ts, pos, n, version, acc);
      r.Ok? ==> && r.value.0[..|acc|] == acc && NoDup(IdsOf(r.value.0))
                && forall k :: |acc| <= k < |r.value.0| ==> Assoc.Unique(r.value.0[k].features)
    decreases n
  {
    if n > 0 {
      var p := ReadPoint(ts, pos, version);
      if p.Ok? && p.value.0.id !in IdsOf(acc) {
        var acc' := acc + [p.value.0];
        assert IdsOf(acc') == IdsOf(acc) + [p.value.0.id];
        ReadPointsWell(ts, p.value.1, n - 1, version, acc');
        var r := ReadPoints(ts, p.value.1, n - 1, version, acc');
        assert r.Ok? ==> r.value.0[..|acc|] == r.value.0[..|acc'|][..|acc|] && r.value.0[|acc|] == acc'[|acc|];
      }
    }
  }

  /** The label loop. Versions 0 and 1 store an eSpecificPoints code and add with
      Dictionary.Add, so a repeated label throws; later versions store the label and
      keep the first binding of a repeated one. */
  function ReadLabels(ts: seq<Token>, pos: nat, n: nat, version: u32, acc: Assoc.Dict<string, u32>): (r: Result<(Assoc.Dict<string, u32>, nat)>)
    requires Assoc.Unique(acc)
    ensures r.Ok? ==> Assoc.Unique(r.value.0) && r.value.1 == pos + 2 * n
    ensures r.Err? && version >= 2 ==> r.error != DuplicateKey
    decreases n
  {
    if n == 0 then Ok((acc, pos))
    else if version <= 1 then
      var code :- ReadI32(ts, pos);
      var id :- ReadU32(ts, pos + 1);
      var acc' :- Assoc.Add(acc, Names.PointLabel(code), id);
      Assoc.AppendUnique(acc, Names.PointLabel(code), id);
      ReadLabels(ts, pos + 2, n - 1, version, acc')
    else
      var key :- ReadStr(ts, pos);
      var id :- ReadU32(ts, pos + 1);
      if Assoc.HasKey(acc, key) then ReadLabels(ts, pos + 2, n - 1, version, acc)
      else
        Assoc.AppendUnique(acc, key, id);
        ReadLabels(ts, pos + 2, n - 1, version, acc + [(key, id)])
  }

  /** The fields LoadInternalModelType reads before the labels, and the position after
      them. */
  datatype Preamble = Preamble(
    version: u32, modelType: string, nextId: u32, count: u32,
    expression: Option<string>, history: seq<string>, next: nat)

  /** The header, the discarded path, the type, the ID counter and the count, the
      expression at versions 4 and 5, and the history at version 5. */
  function ReadPreamble(ts: seq<Token>, previous: u32): (r: Result<Preamble>)
    ensures r.Ok? ==> r.value.version <= SupportedVersion
    ensures r.Ok? && r.value.version < 4 ==> r.value.expression.None?
    ensures r.Ok? && r.value.version != 5 ==> r.value.history == []
  {
    var header :- ReadStr(ts, 0);
    var version :- ParseVersion(header, previous);
    var _ :- ReadStr(ts, 1);
    var modelType :- ReadStr(ts, 2);
    var nextId :- ReadU32(ts, 3);
    var count :- ReadU32(ts, 4);
    if version == 5 then
      var e :- ReadStr(ts, 5);
      var n :- ReadI32(ts, 6);
      var hist :- ReadStrs(ts, 7, Clamp(n));
      Ok(Preamble(version, modelType, nextId, count, Some(e), hist.0, hist.1))
    else if version == 4 then
      var e :- ReadStr(ts, 5);
      Ok(Preamble(version, modelType, nextId, count, Some(e), [], 6))
    else Ok(Preamble(version, modelType, nextId, count, None, [], 5))
  }

  /** What every successful decoding yields: one point per counted point, with pairwise
      distinct IDs and distinct feature names, distinct labels, and the expression and
      history only from the versions that store them. */
  ghost predicate WellDecoded(d: Decoded) {
    && d.version <= SupportedVersion
    && |d.points| == d.count
    && NoDup(IdsOf(d.points))
    && (forall k :: 0 <= k < |d.points| ==> Assoc.Unique(d.points[k].features))
    && Assoc.Unique(d.labels)
    && (d.version < 4 ==> d.expression.None?)
    && (d.version != 5 ==> d.history == [])
  }

  /** LoadInternalModelType up to the linking: the preamble, the labels, then count
      points. Tokens after the last point are not read. */
  function Decode(ts: seq<Token>, previous: u32): (r: Result<Decoded>)
    ensures r.Ok? ==> WellDecoded(r.value)
  {
    var pre :- ReadPreamble(ts, previous);
    DecodeRestWell(ts, pre);
    DecodeRest(ts, pre)
  }

  /** The labels and the points that follow the preamble. */
  function DecodeRest(ts: seq<Token>, pre: Preamble): (r: Result<Decoded>)
    ensures r.Ok? ==> && r.value.version == pre.version && r.value.expression == pre.expression
                      && r.value.history == pre.history && |r.value.points| == r.value.count == pre.count
  {
    var m :- ReadI32(ts, pre.next);
    var labels :- ReadLabels(ts, pre.next + 1, Clamp(m), pre.version, []);
    var points :- ReadPoints(ts, labels.1, pre.count, pre.version, []);
    Ok(Decoded(pre.version, pre.modelType, pre.nextId, pre.count, pre.expression, pre.history, labels.0, points.0))
  }

  /** The labels and the points read are keyed uniquely. */
  lemma DecodeRestWell(ts: seq<Token>, pre: Preamble)
    ensures var r := DecodeRest(ts, pre);
      r.Ok? ==> && NoDup(IdsOf(r.value.points)) && Assoc.Unique(r.value.labels)
                && forall k :: 0 <= k < |r.value.points| ==> Assoc.Unique(r.value.points[k].features)
  {
    var r := DecodeRest(ts, pre);
    if r.Ok? {
      var m := ReadI32(ts, pre.next).value;
      var labels := ReadLabels(ts, pre.next + 1, Clamp(m), pre.version, []).value;
      var points := ReadPoints(ts, labels.1, pre.count, pre.version, []);
      ReadPointsWell(ts, labels.1, pre.count as nat, pre.version, []);
      assert r.value.labels == labels.0 && r.value.points == points.value.0;
    }
  }

  // ---------------------------------------------------------------- round trip

  /** The tokens e sit in ts from position pos on. */
  ghost predicate At(ts: seq<Token>, pos: nat, e: seq<Token>) {
    pos + |e| <= |ts| && forall i :: 0 <= i < |e| ==> ts[pos + i] == e[i]
  }

  lemma AtSplit(ts: seq<Token>, pos: nat, a: seq<Token>, b: seq<Token>)
    requires At(ts, pos, a + b)
    ensures At(ts, pos, a) && At(ts, pos + |a|, b)
  {
    forall i | 0 <= i < |a| ensures ts[pos + i] == a[i] {
      assert (a + b)[i] == a[i];
    }
    forall i | 0 <= i < |b| ensures ts[pos + |a| + i] == b[i] {
      assert (a + b)[|a| + i] == b[i];
    }
  }

  lemma AtHead(ts: seq<Token>, pos: nat, t: Token, rest: seq<Token>)
    requires At(ts, pos, [t] + rest)
    ensures pos < |ts| && ts[pos] == t && At(ts, pos + 1, rest)
  {
    AtSplit(ts, pos, [t], rest);
    assert [t][0] == t;
  }

  lemma {:induction false} ReadIdsAt(ts: seq<Token>, pos: nat, ids: seq<u32>)
    requires At(ts, pos, EncodeIds(ids))
    ensures ReadIds(ts, pos, |ids|) == Ok((ids, pos + |ids|))
    decreases |ids|
  {
    if ids != [] {
      AtHead(ts, pos, TU32(ids[0]), EncodeIds(ids[1..]));
      ReadIdsAt(ts, pos + 1, ids[1..]);
      assert [ids[0]] + ids[1..] == ids;
    }
  }

  lemma {:induction false} ReadStrsAt(ts: seq<Token>, pos: nat, xs: seq<string>)
    requires At(ts, pos, EncodeStrs(xs))
    ensures ReadStrs(ts, pos, |xs|) == Ok((xs, pos + |xs|))
    decreases |xs|
  {
    if xs != [] {
      AtHead(ts, pos, TStr(xs[0]), EncodeStrs(xs[1..]));
      ReadStrsAt(ts, pos + 1, xs[1..]);
      assert [xs[0]] + xs[1..] == xs;
    }
  }

  /** The prefix of a dictionary without repeated keys has none either, and misses
      the key that follows it. */
  lemma UniquePrefix<V>(acc: Assoc.Dict<string, V>, rest: Assoc.Dict<string, V>)
    requires Assoc.Unique(acc + rest)
    ensures Assoc.Unique(acc)
    ensures rest != [] ==> !Assoc.HasKey(acc, rest[0].0) && Assoc.Unique(acc + [rest[0]])
  {
    assert forall i :: 0 <= i < |acc| ==> (acc + rest)[i] == acc[i];
    if rest != [] {
      assert (acc + rest)[|acc|] == rest[0];
      assert acc + [rest[0]] == (acc + rest)[..|acc| + 1];
    }
  }

  lemma {:induction false} ReadFeaturesAt(ts: seq<Token>, pos: nat, fs: Assoc.Dict<string, Double>, version: u32, acc: Assoc.Dict<string, Double>)
    requires version >= 1 && At(ts, pos, EncodeFeatures(fs)) && Assoc.Unique(acc + fs)
    ensures Assoc.Unique(acc)
    ensures ReadFeatures(ts, pos, |fs|, version, acc) == Ok((acc + fs, pos + 2 * |fs|))
    decreases |fs|
  {
    UniquePrefix(acc, fs);
    if fs == [] {
      assert acc + fs == acc;
    } else {
      assert EncodeFeatures(fs) == [TStr(fs[0].0)] + ([TF64(fs[0].1)] + EncodeFeatures(fs[1..]));
      AtHead(ts, pos, TStr(fs[0].0), [TF64(fs[0].1)] + EncodeFeatures(fs[1..]));
      AtHead(ts, pos + 1, TF64(fs[0].1), EncodeFeatures(fs[1..]));
      var acc' := acc + [fs[0]];
      assert Assoc.Add(acc, fs[0].0, fs[0].1) == Ok(acc');
      assert acc' + fs[1..] == acc + fs;
      ReadFeaturesAt(ts, pos + 2, fs[1..], version, acc');
    }
  }

  lemma {:induction false} ReadLabelsAt(ts: seq<Token>, pos: nat, ls: seq<(string, u32)>, version: u32, acc: Assoc.Dict<string, u32>)
    requires version >= 2 && At(ts, pos, EncodeLabels(ls)) && Assoc.Unique(acc + ls)
    ensures Assoc.Unique(acc)
    ensures ReadLabels(ts, pos, |ls|, version, acc) == Ok((acc + ls, pos + 2 * |ls|))
    decreases |ls|
  {
    UniquePrefix(acc, ls);
    if ls == [] {
      assert acc + ls == acc;
    } else {
      assert EncodeLabels(ls) == [TStr(ls[0].0)] + ([TU32(ls[0].1)] + EncodeLabels(ls[1..]));
      AtHead(ts, pos, TStr(ls[0].0), [TU32(ls[0].1)] + EncodeLabels(ls[1..]));
      AtHead(ts, pos + 1, TU32(ls[0].1), EncodeLabels(ls[1..]));
      var acc' := acc + [ls[0]];
      assert acc' + ls[1..] == acc + ls;
      ReadLabelsAt(ts, pos + 2, ls[1..], version, acc');
    }
  }

  /** The fixed fields of a version 5 record read back as written. */
  lemma ReadFixedAt(ts: seq<Token>, pos: nat, p: PointFile)
    requires At(ts, pos, EncodeFixed(p))
    ensures ReadFixed(ts, pos, SupportedVersion) == Ok((p.(neighbors := [], features := []), pos + 10))
  {
    var e := EncodeFixed(p);
    assert ts[pos] == e[0] && ts[pos + 1] == e[1] && ts[pos + 2] == e[2] && ts[pos + 3] == e[3] && ts[pos + 4] == e[4];
    assert ts[pos + 5] == e[5] && ts[pos + 6] == e[6] && ts[pos + 7] == e[7] && ts[pos + 8] == e[8] && ts[pos + 9] == e[9];
  }

  /** LoadPoint of version 5 reads back what SaveMe wrote. */
  lemma ReadPointAt(ts: seq<Token>, pos: nat, p: PointFile)
    requires PointFits(p) && Assoc.Unique(p.features) && At(ts, pos, EncodePoint(p))
    ensures ReadPoint(ts, pos, SupportedVersion) == Ok((p, pos + |EncodePoint(p)|))
  {
    PointLayout(ts, pos, p);
    ReadPointPieces(ts, pos, p);
    ReadPointOf(ts, pos, SupportedVersion, (p.(neighbors := [], features := []), pos + 10), |p.neighbors| as i32,
                (p.neighbors, pos + 11 + |p.neighbors|), |p.features| as i32, (p.features, pos + |EncodePoint(p)|));
  }

  lemma ReadPointPieces(ts: seq<Token>, pos: nat, p: PointFile)
    requires PointFits(p) && Assoc.Unique(p.features) && PointLaid(ts, pos, p)
    ensures var n := |p.neighbors|;
      && ReadFixed(ts, pos, SupportedVersion) == Ok((p.(neighbors := [], features := []), pos + 10))
      && ReadI32(ts, pos + 10) == Ok(n as i32)
      && ReadIds(ts, pos + 11, n) == Ok((p.neighbors, pos + 11 + n))
      && ReadI32(ts, pos + 11 + n) == Ok(|p.features| as i32)
      && ReadFeatures(ts, pos + 12 + n, |p.features|, SupportedVersion, []) == Ok((p.features, pos + 12 + n + 2 * |p.features|))
  {
    ReadFixedAt(ts, pos, p);
    ReadIdsAt(ts, pos + 11, p.neighbors);
    assert [] + p.features == p.features;
    ReadFeaturesAt(ts, pos + 12 + |p.neighbors|, p.features, SupportedVersion, []);
  }

  /** Each part of a saved point where SaveMe writes it. */
  ghost predicate PointLaid(ts: seq<Token>, pos: nat, p: PointFile)
    requires PointFits(p)
  {
    var n := |p.neighbors|;
    && At(ts, pos, EncodeFixed(p))
    && pos + 10 < |ts| && ts[pos + 10] == TI32(n)
    && At(ts, pos + 11, EncodeIds(p.neighbors))
    && pos + 11 + n < |ts| && ts[pos + 11 + n] == TI32(|p.features|)
    && At(ts, pos + 12 + n, EncodeFeatures(p.features))
  }

  lemma PointLayout(ts: seq<Token>, pos: nat, p: PointFile)
    requires PointFits(p) && At(ts, pos, EncodePoint(p))
    ensures PointLaid(ts, pos, p) && |EncodePoint(p)| == 12 + |p.neighbors| + 2 * |p.features|
  {
    var ids := [TI32(|p.neighbors|)] + EncodeIds(p.neighbors);
    var fs := [TI32(|p.features|)] + EncodeFeatures(p.features);
    assert EncodePoint(p) == EncodeFixed(p) + (ids + fs);
    AtSplit(ts, pos, EncodeFixed(p), ids + fs);
    AtSplit(ts, pos + 10, ids, fs);
    AtHead(ts, pos + 10, TI32(|p.neighbors|), EncodeIds(p.neighbors));
    AtHead(ts, pos + 10 + |ids|, TI32(|p.features|), EncodeFeatures(p.features));
  }

  lemma ReadPointOf(ts: seq<Token>, pos: nat, version: u32, fixed: (PointFile, nat), n: i32, ids: (seq<u32>, nat), m: i32, fs: (Assoc.Dict<string, Double>, nat))
    requires ReadFixed(ts, pos, version) == Ok(fixed) && ReadI32(ts, fixed.1) == Ok(n)
    requires ReadIds(ts, fixed.1 + 1, Clamp(n)) == Ok(ids) && ReadI32(ts, ids.1) == Ok(m)
    requires ReadFeatures(ts, ids.1 + 1, Clamp(m), version, []) == Ok(fs)
    ensures ReadPoint(ts, pos, version) == Ok((fixed.0.(neighbors := ids.0, features := fs.0), fs.1))
  {
  }

  lemma {:induction false} ReadPointsAt(ts: seq<Token>, pos: nat, ps: seq<PointFile>, acc: seq<PointFile>)
    requires forall k :: 0 <= k < |ps| ==> PointFits(ps[k]) && Assoc.Unique(ps[k].features)
    requires At(ts, pos, EncodePoints(ps)) && NoDup(IdsOf(acc + ps))
    ensures ReadPoints(ts, pos, |ps|, SupportedVersion, acc) == Ok((acc + ps, pos + |EncodePoints(ps)|))
    decreases |ps|
  {
    if ps == [] {
      assert acc + ps == acc;
    } else {
      IdsApart(acc, ps);
      var next := pos + |EncodePoint(ps[0])|;
      AtSplit(ts, pos, EncodePoint(ps[0]), EncodePoints(ps[1..]));
      ReadPointAt(ts, pos, ps[0]);
      ReadPointsAt(ts, next, ps[1..], acc + [ps[0]]);
      ReadPointsStep(ts, pos, |ps|, SupportedVersion, acc, (ps[0], next));
    }
  }

  /** Staging ps after acc keeps IDs apart: acc has none twice and none of the first
      point's. */
  lemma IdsApart(acc: seq<PointFile>, ps: seq<PointFile>)
    requires ps != [] && NoDup(IdsOf(acc + ps))
    ensures NoDup(IdsOf(acc)) && ps[0].id !in IdsOf(acc)
    ensures (acc + [ps[0]]) + ps[1..] == acc + ps
  {
    var all := IdsOf(acc + ps);
    assert forall k :: 0 <= k < |acc| ==> IdsOf(acc)[k] == all[k];
    assert all[|acc|] == ps[0].id;
  }

  lemma ReadPointsStep(ts: seq<Token>, pos: nat, n: nat, version: u32, acc: seq<PointFile>, p: (PointFile, nat))
    requires n > 0 && ReadPoint(ts, pos, version) == Ok(p) && p.0.id !in IdsOf(acc)
    ensures ReadPoints(ts, pos, n, version, acc) == ReadPoints(ts, p.1, n - 1, version, acc + [p.0])
  {
  }

  /** A file that SaveModel can write and LoadInternalModelType can read back: its
      counts fit an int, it counts its own points, and its point IDs, feature names
      and labels are distinct. */
  ghost predicate Saveable(f: FileModel) {
    && Fits(f)
    && |f.points| == f.count
    && NoDup(IdsOf(f.points))
    && (forall k :: 0 <= k < |f.points| ==> Assoc.Unique(f.points[k].features))
    && Assoc.Unique(f.labels)
  }

  /** The preamble SaveModel writes reads back at version 5. */
  lemma ReadPreambleAt(ts: seq<Token>, f: FileModel, previous: u32)
    requires CountFits(|f.history|)
    requires At(ts, 0, EncodePreamble(f))
    ensures ReadPreamble(ts, previous) ==
      Ok(Preamble(SupportedVersion, f.modelType, f.nextId, f.count, Some(f.expression), f.history, 7 + |f.history|))
  {
    var head := [TStr(Header), TStr(f.path), TStr(f.modelType), TU32(f.nextId), TU32(f.count), TStr(f.expression), TI32(|f.history|)];
    AtSplit(ts, 0, head, EncodeStrs(f.history));
    assert ts[0] == head[0] && ts[1] == head[1] && ts[2] == head[2] && ts[3] == head[3];
    assert ts[4] == head[4] && ts[5] == head[5] && ts[6] == head[6];
    HeaderVersion(previous);
    ReadStrsAt(ts, 7, f.history);
  }

  lemma DecodeOf(ts: seq<Token>, previous: u32, pre: Preamble, d: Decoded)
    requires ReadPreamble(ts, previous) == Ok(pre) && DecodeRest(ts, pre) == Ok(d)
    ensures Decode(ts, previous) == Ok(d)
  {
  }

  /** Loading what SaveModel wrote reads back every field it wrote, except the path,
      which LoadInternalModelType reads and discards, at the version it wrote. */
  lemma DecodeEncode(f: FileModel, previous: u32)
    requires Saveable(f)
    ensures Decode(Encode(f), previous) ==
      Ok(Decoded(SupportedVersion, f.modelType, f.nextId, f.count, Some(f.expression), f.history, f.labels, f.points))
  {
    AtSelf(Encode(f));
    EncodeLayout(Encode(f), f);
    DecodeAt(Encode(f), f, previous);
  }

  lemma AtSelf(ts: seq<Token>)
    ensures At(ts, 0, ts)
  {
  }

  /** Decoding any tokens laid out as SaveModel writes them. */
  lemma DecodeAt(ts: seq<Token>, f: FileModel, previous: u32)
    requires Saveable(f) && Laid(ts, f)
    ensures Decode(ts, previous) ==
      Ok(Decoded(SupportedVersion, f.modelType, f.nextId, f.count, Some(f.expression), f.history, f.labels, f.points))
  {
    var h := |f.history|;
    var pre := Preamble(SupportedVersion, f.modelType, f.nextId, f.count, Some(f.expression), f.history, 7 + h);
    ReadPreambleAt(ts, f, previous);
    DecodeRestAt(ts, f, pre);
    DecodeOf(ts, previous, pre, Decoded(SupportedVersion, f.modelType, f.nextId, f.count, Some(f.expression), f.history, f.labels, f.points));
  }

  lemma DecodeRestAt(ts: seq<Token>, f: FileModel, pre: Preamble)
    requires Saveable(f)
    requires pre == Preamble(SupportedVersion, f.modelType, f.nextId, f.count, Some(f.expression), f.history, 7 + |f.history|)
    requires pre.next < |ts| && ts[pre.next] == TI32(|f.labels|)
    requires At(ts, pre.next + 1, EncodeLabels(f.labels))
    requires At(ts, pre.next + 1 + 2 * |f.labels|, EncodePoints(f.points))
    ensures DecodeRest(ts, pre) ==
      Ok(Decoded(SupportedVersion, f.modelType, f.nextId, f.count, Some(f.expression), f.history, f.labels, f.points))
  {
    var l := pre.next + 1 + 2 * |f.labels|;
    LabelsLaid(ts, f, pre.next + 1);
    PointsLaid(ts, f, l);
    assert ReadI32(ts, pre.next) == Ok(|f.labels| as i32);
  }

  lemma LabelsLaid(ts: seq<Token>, f: FileModel, pos: nat)
    requires Saveable(f) && At(ts, pos, EncodeLabels(f.labels))
    ensures ReadLabels(ts, pos, |f.labels|, SupportedVersion, []) == Ok((f.labels, pos + 2 * |f.labels|))
  {
    assert [] + f.labels == f.labels;
    ReadLabelsAt(ts, pos, f.labels, SupportedVersion, []);
  }

  lemma PointsLaid(ts: seq<Token>, f: FileModel, pos: nat)
    requires Saveable(f) && At(ts, pos, EncodePoints(f.points))
    ensures ReadPoints(ts, pos, f.count as nat, SupportedVersion, []) == Ok((f.points, pos + |EncodePoints(f.points)|))
  {
    assert [] + f.points == f.points;
    ReadPointsAt(ts, pos, f.points, []);
  }

  /** Each part of a saved file where SaveModel writes it. */
  ghost predicate Laid(ts: seq<Token>, f: FileModel)
    requires Fits(f)
  {
    var h := |f.history|;
    && At(ts, 0, EncodePreamble(f))
    && 7 + h < |ts| && ts[7 + h] == TI32(|f.labels|)
    && At(ts, 8 + h, EncodeLabels(f.labels))
    && At(ts, 8 + h + 2 * |f.labels|, EncodePoints(f.points))
  }

  /** Where each part of a saved file sits. */
  lemma EncodeLayout(ts: seq<Token>, f: FileModel)
    requires Fits(f) && At(ts, 0, Encode(f))
    ensures Laid(ts, f)
  {
    var h := |f.history|;
    var lab := [TI32(|f.labels|)] + EncodeLabels(f.labels);
    assert Encode(f) == EncodePreamble(f) + (lab + EncodePoints(f.points));
    AtSplit(ts, 0, EncodePreamble(f), lab + EncodePoints(f.points));
    AtSplit(ts, 7 + h, lab, EncodePoints(f.points));
    AtHead(ts, 7 + h, TI32(|f.labels|), EncodeLabels(f.labels));
  }

  /** From version 2 on a repeated label keeps its first point; versions 0 and 1 add
      the labels with Dictionary.Add, so a repeated one makes the load throw. */
  lemma RepeatedLabel(name: string, code: i32, first: u32, second: u32, version: u32)
    ensures 2 <= version ==>
      ReadLabels([TStr(name), TU32(first), TStr(name), TU32(second)], 0, 2, version, []) == Ok(([(name, first)], 4))
    ensures version <= 1 ==>
      ReadLabels([TI32(code), TU32(first), TI32(code), TU32(second)], 0, 2, version, []) == Err(DuplicateKey)
  {
    if 2 <= version {
      var ts := [TStr(name), TU32(first), TStr(name), TU32(second)];
      var once := [(name, first)];
      assert once[0].0 == name;
      assert ReadLabels(ts, 4, 0, version, once) == Ok((once, 4));
      assert ReadLabels(ts, 2, 1, version, once) == Ok((once, 4));
      assert [] + [(name, first)] == once;
    } else {
      var ts := [TI32(code), TU32(first), TI32(code), TU32(second)];
      var once := [(Names.PointLabel(code), first)];
      assert ReadI32(ts, 0) == Ok(code) && ReadU32(ts, 1) == Ok(first);
      assert once[0].0 == Names.PointLabel(code);
      assert Assoc.HasKey(once, Names.PointLabel(code));
      var none: Assoc.Dict<string, u32> := [];
      assert !Assoc.HasKey(none, Names.PointLabel(code));
      assert none + once == once;
      assert Assoc.Add(none, Names.PointLabel(code), first) == Ok(once);
      assert ReadI32(ts, 2) == Ok(code) && ReadU32(ts, 3) == Ok(second);
      assert Assoc.Add(once, Names.PointLabel(code), second) == Err(DuplicateKey);
      assert ReadLabels(ts, 2, 1, version, once) == Err(DuplicateKey);
    }
  }
}
