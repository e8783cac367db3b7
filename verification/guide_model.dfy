/** GuideCheckModel: the editable list of guide colours. A new list holds
    red, blue and green; `getChecks` hands the enabled entries to the
    guide check with the ring size chosen in the panel. */
module GuideModel {
  import opened Colors
  import opened Checks
  import opened Lists

  /** The item data roles, numbered from Qt::UserRole (256) + 1. */
  const SourceColorRole := 257
  const SelectionColorRole := 258
  const ToleranceRole := 259
  const EnabledRole := 260

  /** What `data` answers: one field of an entry, or an invalid QVariant. */
  datatype Data = NoData | ColorData(color: Rgba) | BoolData(flag: bool) | IntData(number: int)

  /** addCheck: a new enabled entry at the end, ring radius 10 and width 2. */
  function AddCheck(checks: seq<GuideParams>, source: Rgba, selection: Rgba, tolerance: int): (r: seq<GuideParams>)
    ensures |r| == |checks| + 1 && r[..|checks|] == checks
    ensures r[|checks|] == GuideParams(source, selection, 10, 2, tolerance, true)
  {
    checks + [GuideParams(source, selection, 10, 2, tolerance, true)]
  }

  /** The constructor: red, blue and green, in that order, each circled in
      yellow with tolerance 0. */
  function NewGuideModel(): (checks: seq<GuideParams>)
    ensures |checks| == 3
    ensures checks[0].sourceColor == Red && checks[1].sourceColor == Blue && checks[2].sourceColor == Green
    ensures forall k :: 0 <= k < 3 ==> checks[k] == NewGuideParams(checks[k].sourceColor, Yellow)
  {
    AddCheck(AddCheck(AddCheck([], Red, Yellow, 0), Blue, Yellow, 0), Green, Yellow, 0)
  }

  /** removeCheck: removes entry `index`; the others keep their order. */
  function RemoveCheck(checks: seq<GuideParams>, index: int): (r: seq<GuideParams>)
    ensures !(0 <= index < |checks|) ==> r == checks
    ensures 0 <= index < |checks| ==>
      && |r| == |checks| - 1
      && (forall k :: 0 <= k < index ==> r[k] == checks[k])
      && (forall k :: index <= k < |r| ==> r[k] == checks[k + 1])
  {
    if 0 <= index < |checks| then checks[..index] + checks[index + 1..] else checks
  }

  /** Removing the entry just added gives back the list. */
  lemma RemoveAdded(checks: seq<GuideParams>, source: Rgba, selection: Rgba, tolerance: int)
    ensures RemoveCheck(AddCheck(checks, source, selection, tolerance), |checks|) == checks
  {
    var added := AddCheck(checks, source, selection, tolerance);
    assert added[..|checks|] == checks;
  }

  /** `r` is `checks` with entry `index` replaced by `updated`, or `checks`
      itself when there is no such entry. */
  predicate ChangedAt(checks: seq<GuideParams>, r: seq<GuideParams>, index: int, updated: GuideParams) {
    && |r| == |checks|
    && (forall k :: 0 <= k < |checks| && k != index ==> r[k] == checks[k])
    && (0 <= index < |checks| ==> r[index] == updated)
  }

  function Update(checks: seq<GuideParams>, index: int, updated: GuideParams): seq<GuideParams> {
    if 0 <= index < |checks| then checks[index := updated] else checks
  }

  /** setSourceColor: only the source colour of entry `index` changes. */
  function SetSourceColor(checks: seq<GuideParams>, index: int, color: Rgba): (r: seq<GuideParams>)
    ensures 0 <= index < |checks| ==> ChangedAt(checks, r, index, checks[index].(sourceColor := color))
    ensures !(0 <= index < |checks|) ==> r == checks
  {
    if 0 <= index < |checks| then Update(checks, index, checks[index].(sourceColor := color)) else checks
  }

  /** setSelectionColor: only the ring colour of entry `index` changes. */
  function SetSelectionColor(checks: seq<GuideParams>, index: int, color: Rgba): (r: seq<GuideParams>)
    ensures 0 <= index < |checks| ==> ChangedAt(checks, r, index, checks[index].(selectionColor := color))
    ensures !(0 <= index < |checks|) ==> r == checks
  {
    if 0 <= index < |checks| then Update(checks, index, checks[index].(selectionColor := color)) else checks
  }

  /** setTolerance: only the tolerance of entry `index` changes. */
  function SetTolerance(checks: seq<GuideParams>, index: int, tolerance: int): (r: seq<GuideParams>)
    ensures 0 <= index < |checks| ==> ChangedAt(checks, r, index, checks[index].(tolerance := tolerance))
    ensures !(0 <= index < |checks|) ==> r == checks
  {
    if 0 <= index < |checks| then Update(checks, index, checks[index].(tolerance := tolerance)) else checks
  }

  /** setEnabled: only the enabled flag of entry `index` changes. */
  function SetEnabled(checks: seq<GuideParams>, index: int, enabled: bool): (r: seq<GuideParams>)
    ensures 0 <= index < |checks| ==> ChangedAt(checks, r, index, checks[index].(enabled := enabled))
    ensures !(0 <= index < |checks|) ==> r == checks
  {
    if 0 <= index < |checks| then Update(checks, index, checks[index].(enabled := enabled)) else checks
  }

  /** setAllTolerances: every entry, enabled or not, gets the tolerance. */
  function SetAllTolerances(checks: seq<GuideParams>, tolerance: int): (r: seq<GuideParams>)
    ensures |r| == |checks|
    ensures forall k :: 0 <= k < |checks| ==> r[k] == checks[k].(tolerance := tolerance)
  {
    seq(|checks|, k requires 0 <= k < |checks| => checks[k].(tolerance := tolerance))
  }

  /** data: the field of entry `row` that `role` names. */
  function DataAt(checks: seq<GuideParams>, row: int, role: int): (d: Data)
    ensures d != NoData <==> 0 <= row < |checks| && SourceColorRole <= role <= EnabledRole
  {
    if !(0 <= row < |checks|) then NoData
    else if role == SourceColorRole then ColorData(checks[row].sourceColor)
    else if role == SelectionColorRole then ColorData(checks[row].selectionColor)
    else if role == ToleranceRole then IntData(checks[row].tolerance)
    else if role == EnabledRole then BoolData(checks[row].enabled)
    else NoData
  }

  /** The setters are read back by data. */
  lemma SettersReadBack(checks: seq<GuideParams>, row: int, color: Rgba, tolerance: int, enabled: bool)
    requires 0 <= row < |checks|
    ensures DataAt(SetSourceColor(checks, row, color), row, SourceColorRole) == ColorData(color)
    ensures DataAt(SetSelectionColor(checks, row, color), row, SelectionColorRole) == ColorData(color)
    ensures DataAt(SetTolerance(checks, row, tolerance), row, ToleranceRole) == IntData(tolerance)
    ensures DataAt(SetEnabled(checks, row, enabled), row, EnabledRole) == BoolData(enabled)
  {
  }

  /** An entry takes part in the guide check. */
  predicate CheckEnabled(p: GuideParams) {
    p.enabled
  }

  /** getChecks: the enabled entries in order, with the given ring radius
      and width. */
  method GetChecks(checks: seq<GuideParams>, radius: int, thickness: int) returns (result: seq<GuideParams>)
    ensures var idx := Positions(checks, CheckEnabled);
      && |result| == |idx|
      && forall k :: 0 <= k < |idx| ==> result[k] == checks[idx[k]].(radius := radius, thickness := thickness)
  {
    result := [];
    var i := 0;
    while i < |checks|
      invariant 0 <= i <= |checks|
      invariant var idx := Positions(checks[..i], CheckEnabled);
        && |result| == |idx|
        && forall k :: 0 <= k < |idx| ==> result[k] == checks[idx[k]].(radius := radius, thickness := thickness)
    {
      assert checks[..i + 1][..i] == checks[..i];
      var p := checks[i];
      if p.enabled {
        result := result + [p.(radius := radius, thickness := thickness)];
      }
      i := i + 1;
    }
    assert checks[..i] == checks;
  }
}
