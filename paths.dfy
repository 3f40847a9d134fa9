// Path helpers of the model: the file name and folder derived from the model path,
// and the choice of reader that LoadModel makes from the path's extension.

module Paths {
  import opened Types
  import opened Text

  const UnknownName: string := "Unknown"
  const InternalExtension: string := "binarymodel"

  /** String.Substring(start, length): out of range when the length is negative. */
  function Substring(s: string, start: int, length: int): (r: Result<string>)
    ensures r.Ok? <==> 0 <= start && 0 <= length && start + length <= |s|
    ensures r.Ok? ==> r.value == s[start..start + length]
    ensures r.Err? ==> r.error == OutOfRange
  {
    if 0 <= start && 0 <= length && start + length <= |s| then Ok(s[start..start + length])
    else Err(OutOfRange)
  }

  /** Exactly one kind of separator, '/' or '\', occurs in the path. */
  predicate OneSeparatorKind(p: string) {
    (LastIndexOf(p, '\\') == -1) != (LastIndexOf(p, '/') == -1)
  }

  /** The last separator of a path that uses one kind of separator. */
  function LastSeparator(p: string): (i: int)
    requires OneSeparatorKind(p)
    ensures 0 <= i < |p| && (p[i] == '/' || p[i] == '\\')
    ensures forall j :: i < j < |p| ==> p[j] != '/' && p[j] != '\\'
  {
    if LastIndexOf(p, '\\') == -1 then LastIndexOf(p, '/') else LastIndexOf(p, '\\')
  }

  /** Cl3DModel.ModelFileName, as written: the name between the last separator and
      the last dot. When the last dot comes before the last separator the Substring
      length is negative and the getter throws. */
  function ModelFileName(p: string): Result<string> {
    var dot := LastIndexOf(p, '.');
    var bs := LastIndexOf(p, '\\');
    var sl := LastIndexOf(p, '/');
    if dot == -1 then Ok(UnknownName)
    else if bs == -1 && sl != -1 then Substring(p, sl + 1, dot - (sl + 1))
    else if bs != -1 && sl == -1 then Substring(p, bs + 1, dot - (bs + 1))
    else Ok(UnknownName)
  }

  /** Cl3DModel.ModelFileFolder: the path up to and including the last separator. */
  function ModelFileFolder(p: string): (r: string)
    ensures OneSeparatorKind(p) ==> r == p[..LastSeparator(p) + 1]
    ensures !OneSeparatorKind(p) ==> r == UnknownName
  {
    var bs := LastIndexOf(p, '\\');
    var sl := LastIndexOf(p, '/');
    if bs == -1 && sl != -1 then p[..sl + 1]
    else if bs != -1 && sl == -1 then p[..bs + 1]
    else UnknownName
  }

  /** What ModelFileName yields, case by case: "Unknown" without a dot or without
      exactly one kind of separator, the text strictly between the last separator and
      the last dot when the dot comes later, and an exception otherwise. */
  lemma ModelFileNameCases(p: string)
    ensures LastIndexOf(p, '.') == -1 || !OneSeparatorKind(p) ==> ModelFileName(p) == Ok(UnknownName)
    ensures LastIndexOf(p, '.') != -1 && OneSeparatorKind(p) ==>
      var dot, sep := LastIndexOf(p, '.'), LastSeparator(p);
      && (sep < dot ==> ModelFileName(p) == Ok(p[sep + 1..dot]))
      && (dot < sep ==> ModelFileName(p) == Err(OutOfRange))
  {
  }

  /** The file name never holds a separator. */
  lemma ModelFileNameClean(p: string)
    requires ModelFileName(p).Ok?
    ensures forall i :: 0 <= i < |ModelFileName(p).value| ==>
      ModelFileName(p).value[i] != '/' && ModelFileName(p).value[i] != '\\'
  {
    ModelFileNameCases(p);
    var dot := LastIndexOf(p, '.');
    if dot != -1 && OneSeparatorKind(p) {
      var sep := LastSeparator(p);
      var n := ModelFileName(p).value;
      assert n == p[sep + 1..dot];
      forall i | 0 <= i < |n| ensures n[i] != '/' && n[i] != '\\' {
        assert n[i] == p[sep + 1 + i];
      }
    }
  }

  /** Folder and name of a well-formed path: folder + name + "." + extension is
      taken apart into exactly that folder and that name. */
  lemma FolderAndName(folder: string, name: string, ext: string)
    requires |folder| > 0 && folder[|folder| - 1] == '/' && '\\' !in folder
    requires '.' !in name && '/' !in name && '\\' !in name
    requires '.' !in ext && '/' !in ext && '\\' !in ext
    ensures var p := folder + name + "." + ext;
      ModelFileName(p) == Ok(name) && ModelFileFolder(p) == folder
  {
    var p := folder + name + "." + ext;
    var dot := |folder| + |name|;
    assert p[dot] == '.';
    assert forall j :: dot < j < |p| ==> p[j] == ext[j - dot - 1];
    assert LastIndexOf(p, '.') == dot;
    assert p[|folder| - 1] == '/';
    assert forall j :: |folder| <= j < |p| ==> p[j] != '/' && p[j] != '\\' by {
      forall j | |folder| <= j < |p| ensures p[j] != '/' && p[j] != '\\' {
        if j < dot { assert p[j] == name[j - |folder|]; }
        else if j > dot { assert p[j] == ext[j - dot - 1]; }
      }
    }
    assert LastIndexOf(p, '/') == |folder| - 1;
    assert forall j :: 0 <= j < |p| ==> p[j] != '\\' by {
      forall j | 0 <= j < |p| ensures p[j] != '\\' {
        if j < |folder| { assert p[j] == folder[j]; }
      }
    }
    assert LastIndexOf(p, '\\') == -1;
    assert p[|folder|..dot] == name;
    assert p[..|folder|] == folder;
  }

  /** A path whose last dot precedes its last separator makes ModelFileName throw. */
  lemma DotBeforeSeparatorThrows()
    ensures ModelFileName("scans.v2/face") == Err(OutOfRange)
  {
    var p := "scans.v2/face";
    assert p[5] == '.' && p[8] == '/';
    assert forall j :: 5 < j < |p| ==> p[j] != '.';
    assert forall j :: 8 < j < |p| ==> p[j] != '/';
    assert forall j :: 0 <= j < |p| ==> p[j] != '\\';
    assert LastIndexOf(p, '.') == 5;
    assert LastIndexOf(p, '/') == 8;
    assert LastIndexOf(p, '\\') == -1;
  }

  /** ModelFileName as evidently intended ("only the file name without extension"):
      when the last dot comes before the last separator the file name has no
      extension, so the name is all of it; wherever the getter does not throw, the
      corrected getter agrees with it. */
  function ModelFileNameCorrected(p: string): (r: Result<string>)
    ensures r.Ok?
    ensures ModelFileName(p).Ok? ==> r == ModelFileName(p)
    ensures LastIndexOf(p, '.') != -1 && OneSeparatorKind(p) && LastIndexOf(p, '.') < LastSeparator(p) ==>
      r.value == p[LastSeparator(p) + 1..]
  {
    ModelFileNameCases(p);
    var dot := LastIndexOf(p, '.');
    if dot != -1 && OneSeparatorKind(p) && dot < LastSeparator(p) then Ok(p[LastSeparator(p) + 1..])
    else ModelFileName(p)
  }

  /** The corrected name never holds a separator either. */
  lemma ModelFileNameCorrectedClean(p: string)
    ensures var n := ModelFileNameCorrected(p).value;
      forall i :: 0 <= i < |n| ==> n[i] != '/' && n[i] != '\\'
  {
    var n := ModelFileNameCorrected(p).value;
    var dot := LastIndexOf(p, '.');
    if dot != -1 && OneSeparatorKind(p) && dot < LastSeparator(p) {
      var sep := LastSeparator(p);
      forall i | 0 <= i < |n| ensures n[i] != '/' && n[i] != '\\' {
        assert n[i] == p[sep + 1 + i];
      }
    } else {
      ModelFileNameCases(p);
      ModelFileNameClean(p);
    }
  }

  /** The path on which the getter throws gets the name after its separator. */
  lemma DotBeforeSeparatorName()
    ensures ModelFileNameCorrected("scans.v2/face") == Ok("face")
  {
    var p := "scans.v2/face";
    DotBeforeSeparatorThrows();
    assert forall j :: 0 <= j < |p| ==> p[j] != '\\';
    assert LastIndexOf(p, '.') == 5 && LastIndexOf(p, '/') == 8 && LastIndexOf(p, '\\') == -1;
    assert p[9..] == "face";
  }

  /** LoadModel's extension: the text after the last dot (the whole path when there
      is none), lower-cased. */
  function Extension(p: string): (ext: string)
    ensures '.' !in ext
    ensures LastIndexOf(p, '.') == -1 ==> ext == ToLower(p)
  {
    var dot := LastIndexOf(p, '.');
    var ext := ToLower(p[dot + 1..]);
    assert forall i :: 0 <= i < |ext| ==> ext[i] == LowerChar(p[dot + 1 + i]);
    ext
  }

  /** The reader LoadModel hands a path to. */
  datatype Dispatch = Internal | External(reader: nat)

  /** A reader whose GetFileExtension(), lower-cased, is the extension. */
  predicate Handles(reader: string, ext: string) {
    ToLower(reader) == ext
  }

  /** LoadModel's choice: the reserved extension goes to the internal binary codec;
      otherwise the last registered reader whose lower-cased extension matches wins;
      with no match the call fails. `readers` lists each registered reader's
      GetFileExtension() in registration order. */
  method SelectReader(p: string, readers: seq<string>) returns (r: Result<Dispatch>)
    ensures Extension(p) == InternalExtension ==> r == Ok(Internal)
    ensures Extension(p) != InternalExtension ==>
      (r.Err? <==> forall i :: 0 <= i < |readers| ==> !Handles(readers[i], Extension(p)))
    ensures r.Err? ==> r.error == UnsupportedFormat
    ensures r.Ok? && r.value.External? ==>
      && r.value.reader < |readers|
      && Handles(readers[r.value.reader], Extension(p))
      && forall j :: r.value.reader < j < |readers| ==> !Handles(readers[j], Extension(p))
  {
    var ext := Extension(p);
    if ext == InternalExtension {
      return Ok(Internal);
    }
    var chosen: Option<nat> := None;
    var i := 0;
    while i < |readers|
      invariant 0 <= i <= |readers|
      invariant chosen.None? <==> forall j :: 0 <= j < i ==> !Handles(readers[j], ext)
      invariant chosen.Some? ==>
        && chosen.value < i
        && Handles(readers[chosen.value], ext)
        && forall j :: chosen.value < j < i ==> !Handles(readers[j], ext)
    {
      if ToLower(readers[i]) == ext {
        chosen := Some(i);
      }
      i := i + 1;
    }
    if chosen.None? {
      return Err(UnsupportedFormat);
    }
    return Ok(External(chosen.value));
  }
}
