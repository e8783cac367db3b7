/** ColorSwapModel: the editable list of replacement rules behind the
    colour swap panel. Every operation is a bounds-checked list update;
    an index out of range leaves the list as it is. */
module SwapModel {
  import opened Colors
  import opened ColorSwapEngine

  /** The item data roles, numbered from Qt::UserRole (256) + 1. */
  const SourceColorRole := 257
  const DestColorRole := 258
  const EnabledRole := 259
  const ToleranceRole := 260

  /** A QVariant as the model reads it: what `value<QColor>()`, `toBool()`
      and `toInt()` make of it. The conversions themselves are Qt's. */
  datatype Variant = Variant(asColor: Rgba, asBool: bool, asInt: int)

  /** What `data` answers: one field of a rule, or an invalid QVariant. */
  datatype Data = NoData | ColorData(color: Rgba) | BoolData(flag: bool) | IntData(number: int)

  predicate HasSource(swaps: seq<ColorSwap>, src: Rgba) {
    exists i :: 0 <= i < |swaps| && swaps[i].source == src
  }

  /** addSwap: a new enabled rule at the end. */
  function AddSwap(swaps: seq<ColorSwap>, src: Rgba, dest: Rgba, tolerance: int): (r: seq<ColorSwap>)
    ensures |r| == |swaps| + 1 && r[..|swaps|] == swaps
    ensures r[|swaps|].source == src && r[|swaps|].dest == dest
    ensures r[|swaps|].enabled && r[|swaps|].tolerance == tolerance
  {
    swaps + [ColorSwap(src, dest, true, tolerance)]
  }

  /** addSourceColor: a rule that maps `src` to itself, unless some rule
      already has that source. Scans the list like the source does. */
  method AddSourceColor(swaps: seq<ColorSwap>, src: Rgba) returns (r: seq<ColorSwap>)
    ensures HasSource(swaps, src) ==> r == swaps
    ensures !HasSource(swaps, src) ==> r == AddSwap(swaps, src, src, 0)
    ensures HasSource(r, src)
  {
    var i := 0;
    while i < |swaps|
      invariant 0 <= i <= |swaps|
      invariant forall j :: 0 <= j < i ==> swaps[j].source != src
    {
      if swaps[i].source == src {
        return swaps;
      }
      i := i + 1;
    }
    r := AddSwap(swaps, src, src, 0);
    assert r[|swaps|].source == src;
  }

  /** No two rules share a source. */
  predicate DistinctSources(swaps: seq<ColorSwap>) {
    forall i, j :: 0 <= i < j < |swaps| ==> swaps[i].source != swaps[j].source
  }

  /** Adding source colours one at a time never creates two rules for one source. */
  method AddSourceColorKeepsDistinct(swaps: seq<ColorSwap>, src: Rgba) returns (r: seq<ColorSwap>)
    requires DistinctSources(swaps)
    ensures DistinctSources(r)
    ensures |r| <= |swaps| + 1
  {
    r := AddSourceColor(swaps, src);
  }

  /** Adding the same source colour twice is adding it once. */
  method AddSourceColorTwice(swaps: seq<ColorSwap>, src: Rgba) returns (once: seq<ColorSwap>, twice: seq<ColorSwap>)
    ensures once == twice
  {
    once := AddSourceColor(swaps, src);
    twice := AddSourceColor(once, src);
  }

  /** removeSwap: removes rule `index`; the others keep their order. */
  function RemoveSwap(swaps: seq<ColorSwap>, index: int): (r: seq<ColorSwap>)
    ensures !(0 <= index < |swaps|) ==> r == swaps
    ensures 0 <= index < |swaps| ==>
      && |r| == |swaps| - 1
      && (forall k :: 0 <= k < index ==> r[k] == swaps[k])
      && (forall k :: index <= k < |r| ==> r[k] == swaps[k + 1])
  {
    if 0 <= index < |swaps| then swaps[..index] + swaps[index + 1..] else swaps
  }

  /** Removing the rule just added gives back the list. */
  lemma RemoveAdded(swaps: seq<ColorSwap>, src: Rgba, dest: Rgba, tolerance: int)
    ensures RemoveSwap(AddSwap(swaps, src, dest, tolerance), |swaps|) == swaps
  {
    var added := AddSwap(swaps, src, dest, tolerance);
    assert added[..|swaps|] == swaps;
  }

  /** clear: the list becomes empty; `reset` is whether a reset is
      announced, which happens only if there was something to clear. */
  function Clear(swaps: seq<ColorSwap>): (r: (seq<ColorSwap>, bool))
    ensures |r.0| == 0
    ensures r.1 <==> |swaps| > 0
  {
    if swaps == [] then (swaps, false) else ([], true)
  }

  /** Rule `index` becomes `updated`; nothing happens out of range. */
  function Update(swaps: seq<ColorSwap>, index: int, updated: ColorSwap): (r: seq<ColorSwap>)
    ensures |r| == |swaps|
    ensures forall k :: 0 <= k < |swaps| ==> r[k] == if k == index then updated else swaps[k]
  {
    if 0 <= index < |swaps| then swaps[index := updated] else swaps
  }

  /** setDestColor: only the destination of rule `index` changes. */
  function SetDestColor(swaps: seq<ColorSwap>, index: int, color: Rgba): (r: seq<ColorSwap>)
    ensures |r| == |swaps|
    ensures forall k :: 0 <= k < |swaps| && k != index ==> r[k] == swaps[k]
    ensures 0 <= index < |swaps| ==> r[index] == swaps[index].(dest := color)
  {
    if 0 <= index < |swaps| then Update(swaps, index, swaps[index].(dest := color)) else swaps
  }

  /** setSourceColor: only the source of rule `index` changes. */
  function SetSourceColor(swaps: seq<ColorSwap>, index: int, color: Rgba): (r: seq<ColorSwap>)
    ensures |r| == |swaps|
    ensures forall k :: 0 <= k < |swaps| && k != index ==> r[k] == swaps[k]
    ensures 0 <= index < |swaps| ==> r[index] == swaps[index].(source := color)
  {
    if 0 <= index < |swaps| then Update(swaps, index, swaps[index].(source := color)) else swaps
  }

  /** setAllTolerance: every enabled rule gets the tolerance; disabled
      rules keep theirs. */
  function SetAllTolerance(swaps: seq<ColorSwap>, tolerance: int): (r: seq<ColorSwap>)
    ensures |r| == |swaps|
    ensures forall k :: 0 <= k < |swaps| ==>
      && r[k].source == swaps[k].source && r[k].dest == swaps[k].dest && r[k].enabled == swaps[k].enabled
      && r[k].tolerance == (if swaps[k].enabled then tolerance else swaps[k].tolerance)
  {
    seq(|swaps|, k requires 0 <= k < |swaps| =>
      if swaps[k].enabled then swaps[k].(tolerance := tolerance) else swaps[k])
  }

  /** data: the field of rule `row` that `role` names. */
  function DataAt(swaps: seq<ColorSwap>, row: int, role: int): (d: Data)
    ensures !(0 <= row < |swaps|) ==> d == NoData
    ensures d != NoData <==> 0 <= row < |swaps| && SourceColorRole <= role <= ToleranceRole
  {
    if !(0 <= row < |swaps|) then NoData
    else if role == SourceColorRole then ColorData(swaps[row].source)
    else if role == DestColorRole then ColorData(swaps[row].dest)
    else if role == EnabledRole then BoolData(swaps[row].enabled)
    else if role == ToleranceRole then IntData(swaps[row].tolerance)
    else NoData
  }

  /** setData: the destination, the enabled flag or the tolerance of rule
      `row` takes the value; the answer is whether the stored value changed.
      The source colour cannot be set this way. */
  function SetData(swaps: seq<ColorSwap>, row: int, value: Variant, role: int): (r: (seq<ColorSwap>, bool))
    ensures r.1 <==> r.0 != swaps
    ensures r.1 ==> 0 <= row < |swaps| && role in {DestColorRole, EnabledRole, ToleranceRole}
    ensures |r.0| == |swaps|
    ensures forall k :: 0 <= k < |swaps| && k != row ==> r.0[k] == swaps[k]
    ensures 0 <= row < |swaps| ==> r.0[row].source == swaps[row].source
  {
    if !(0 <= row < |swaps|) then (swaps, false)
    else
      var swap := swaps[row];
      if role == DestColorRole then
        (if swap.dest != value.asColor then (Update(swaps, row, swap.(dest := value.asColor)), true) else (swaps, false))
      else if role == EnabledRole then
        (if swap.enabled != value.asBool then (Update(swaps, row, swap.(enabled := value.asBool)), true) else (swaps, false))
      else if role == ToleranceRole then
        (if swap.tolerance != value.asInt then (Update(swaps, row, swap.(tolerance := value.asInt)), true) else (swaps, false))
      else (swaps, false)
  }

  /** After setData for an editable role, data reads back the value; a
      second identical setData reports no change. */
  lemma SetDataReadsBack(swaps: seq<ColorSwap>, row: int, value: Variant, role: int)
    requires 0 <= row < |swaps|
    ensures var after := SetData(swaps, row, value, role).0;
      && (role == DestColorRole ==> DataAt(after, row, role) == ColorData(value.asColor))
      && (role == EnabledRole ==> DataAt(after, row, role) == BoolData(value.asBool))
      && (role == ToleranceRole ==> DataAt(after, row, role) == IntData(value.asInt))
      && !SetData(after, row, value, role).1
  {
  }
}
