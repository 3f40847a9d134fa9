// The two enumerations whose names the model stores as strings: landmark labels
// (eSpecificPoints, codes 1..16) and per-point feature names (eSpecificValues,
// codes 1..43). Legacy binary files store the integer code; the reader turns it into
// a name the way C# Enum.ToString() does: the member name for a defined code, the
// decimal digits of the code otherwise.

module Names {
  import opened Types
  import opened Text

  const PointNames: seq<string> := [
    "NoseTip", "LeftEyeLeftCorner", "LeftEyeRightCorner", "RightEyeLeftCorner",
    "RightEyeRightCorner", "LeftCornerOfLips", "RightCornerOfLips", "LeftCornerOfNose",
    "RightCornerOfNose", "UpperLip", "BottomLip", "LeftEyeUpperEyelid",
    "LeftEyeBottomEyelid", "RightEyeUpperEyelid", "RightEyeBottomEyelid", "UnspecifiedPoint"
  ]

  const ValueNames: seq<string> := [
    "Mean_25", "Gaussian_25", "K1_25", "K2_25", "ShapeIndex_25",
    "Mean_20", "Gaussian_20", "K1_20", "K2_20", "ShapeIndex_20",
    "Mean_15", "Gaussian_15", "K1_15", "K2_15", "ShapeIndex_15",
    "Mean_10", "Gaussian_10", "K1_10", "K2_10", "ShapeIndex_10",
    "GeodesicDistanceToNoseTip", "GeodesicDistanceToLeftEye", "GeodesicDistanceToRightEye",
    "DifferenceBetween_HCurvatures_25", "DifferenceBetween_KCurvatures_25",
    "DifferenceBetween_K1Curvatures_25", "DifferenceBetween_K2Curvatures_25",
    "DifferenceBetween_ShapeIndexCurvatures_25",
    "DifferenceDescriptorForNoseTip", "DifferenceDescriptorForEye",
    "ConformalFactor", "ConnectedTrianglesArea",
    "Mean_Custom", "Gaussian_Custom", "K1_Custom", "K2_Custom", "ShapeIndex_Custom",
    "CurvednessIndex_25", "CurvednessIndex_20", "CurvednessIndex_15", "CurvednessIndex_10",
    "GeodesicDistanceFromPoint", "K1_40"
  ]

  /** ((eSpecificPoints)code).ToString() */
  function PointLabel(code: int): (name: string)
    ensures 1 <= code <= 16 ==> name == PointNames[code - 1]
    ensures !(1 <= code <= 16) ==> name == DecimalString(code)
  {
    if 1 <= code <= |PointNames| then PointNames[code - 1] else DecimalString(code)
  }

  /** ((eSpecificValues)code).ToString() */
  function ValueName(code: int): (name: string)
    ensures 1 <= code <= 43 ==> name == ValueNames[code - 1]
    ensures !(1 <= code <= 43) ==> name == DecimalString(code)
  {
    if 1 <= code <= |ValueNames| then ValueNames[code - 1] else DecimalString(code)
  }

  /** Position of a name in a table, plus one: the enum code of a member name. */
  function CodeIn(names: seq<string>, name: string): (r: Option<int>)
    ensures r.Some? ==> 1 <= r.value <= |names| && names[r.value - 1] == name
    ensures r.None? ==> name !in names
  {
    if names == [] then None
    else if names[0] == name then Some(1)
    else match CodeIn(names[1..], name)
      case None => None
      case Some(c) => Some(c + 1)
  }

  /** Enum.Parse for a member name of eSpecificPoints. */
  function PointCode(name: string): Option<int> { CodeIn(PointNames, name) }

  /** Enum.Parse for a member name of eSpecificValues. */
  function ValueCode(name: string): Option<int> { CodeIn(ValueNames, name) }

  /** Every member name of eSpecificPoints is written back as its own code. */
  lemma PointCodeInverse(name: string)
    requires PointCode(name).Some?
    ensures PointLabel(PointCode(name).value) == name
  {
  }

  lemma ValueCodeInverse(name: string)
    requires ValueCode(name).Some?
    ensures ValueName(ValueCode(name).value) == name
  {
    var c := ValueCode(name).value;
    assert 1 <= c <= |ValueNames| && ValueNames[c - 1] == name;
  }

  predicate Distinct(names: seq<string>) {
    forall i, j :: 0 <= i < j < |names| ==> names[i] != names[j]
  }

  lemma {:induction false} CodeInFirst(names: seq<string>, i: nat)
    requires Distinct(names) && i < |names|
    ensures CodeIn(names, names[i]) == Some(i + 1)
  {
    if i > 0 {
      CodeInFirst(names[1..], i - 1);
    }
  }

  lemma PointNamesDistinct()
    ensures Distinct(PointNames)
  {
  }

  /** A defined landmark code survives the trip through its name. */
  lemma PointLabelCode(code: int)
    requires 1 <= code <= 16
    ensures PointCode(PointLabel(code)) == Some(code)
  {
    PointNamesDistinct();
    CodeInFirst(PointNames, code - 1);
  }
}
