/** The undo commands (ColorSwapCommand, GuideCheckCommand,
    AlphaCheckCommand). All three follow one contract: redo runs the
    engine on the current frame or on every frame and keeps the engine's
    snapshot the first time it is non-empty; undo writes the snapshot back
    frame by frame and runs no engine. */
module Undo {
  import opened Images
  import opened ColorSwapEngine
  import opened Checks
  import opened FrameStore

  /** What a command does to the frames. */
  datatype Action =
    | SwapColors(swaps: seq<ColorSwap>)
    | CheckGuides(params: seq<GuideParams>)
    | CheckAlpha(alpha: AlphaParams)

  /** A command: its action, whether it runs on every frame, and the
      snapshot it restores on undo (empty until captured). */
  datatype Command = Command(action: Action, allFrames: bool, undoData: map<int, Image>)

  /** A command as constructed: nothing captured yet. */
  function NewCommand(action: Action, allFrames: bool): (cmd: Command)
    ensures cmd.action == action && cmd.allFrames == allFrames && cmd.undoData == map[]
  {
    Command(action, allFrames, map[])
  }

  /** The entry shown in the undo history. */
  function Text(cmd: Command): (text: string)
    ensures cmd.allFrames <==> |text| >= 6 && text[..6] == "Batch "
  {
    var name := match cmd.action
      case SwapColors(_) => "Color Swap"
      case CheckGuides(_) => "Guide Check"
      case CheckAlpha(_) => "Alpha Check";
    assert |name| >= 6 && name[0] != 'B';
    if cmd.allFrames then "Batch " + name else name
  }

  /** The frames the engine call of `action` reports for the store `s`. */
  ghost function Reported(action: Action, allFrames: bool, s: Store): set<int> {
    var scope := if allFrames then AllKeys(s) else CurrentKeys(s);
    match action
    case SwapColors(_) => scope
    case CheckGuides(params) => if params == [] then {} else GuideKeys(s, params, scope)
    case CheckAlpha(params) => AlphaKeys(s, scope)
  }

  /** Every reported frame now holds what the engine behind `action` makes
      of its earlier image: the rules' replacement, the guide rings or the
      alpha crosses. */
  ghost predicate Applied(action: Action, s: Store, t: Store, result: map<int, Image>)
    requires Snapshot(s, t, result)
  {
    match action
    case SwapColors(swaps) =>
      forall i :: i in result ==> t.frames[i].image == ReplaceColors(CurrentRevision, s.frames[i].image, swaps)
    case CheckGuides(params) => GuideChecked(s, t, result, params)
    case CheckAlpha(params) => AlphaChecked(s, t, result, params)
  }

  /** The engine call behind `action`, on every frame or on the current one. */
  method Run(action: Action, allFrames: bool, s: Store) returns (t: Store, result: map<int, Image>)
    ensures Snapshot(s, t, result)
    ensures result.Keys == Reported(action, allFrames, s)
    ensures Applied(action, s, t, result)
  {
    match action {
      case SwapColors(swaps) =>
        if allFrames {
          t, result := ReplaceColorsInAllFrames(CurrentRevision, s, swaps);
        } else {
          t, result := ReplaceColorsInCurrentFrame(CurrentRevision, s, swaps);
        }
      case CheckGuides(params) =>
        if allFrames {
          t, result := GuideCheckAllFrames(s, params);
        } else {
          t, result := GuideCheckCurrentFrame(s, params);
        }
      case CheckAlpha(params) =>
        if allFrames {
          t, result := AlphaCheckAllFrames(s, params);
        } else {
          t, result := AlphaCheckCurrentFrame(s, params);
        }
    }
  }

  /** The command may run on `s`: nothing is captured yet, or what is
      captured is exactly what running it on `s` would report. */
  ghost predicate Ready(cmd: Command, s: Store) {
    || cmd.undoData == map[]
    || (&& cmd.undoData.Keys == Reported(cmd.action, cmd.allFrames, s)
        && forall i :: i in cmd.undoData ==> 0 <= i < |s.frames| && cmd.undoData[i] == s.frames[i].image)
  }

  /** redo: run the engine; keep its result as the snapshot only while the
      snapshot is empty. */
  method Redo(cmd: Command, s: Store) returns (next: Command, t: Store, result: map<int, Image>)
    ensures next.action == cmd.action && next.allFrames == cmd.allFrames
    ensures Snapshot(s, t, result) && result.Keys == Reported(cmd.action, cmd.allFrames, s)
    ensures Applied(cmd.action, s, t, result)
    ensures next.undoData == if cmd.undoData == map[] then result else cmd.undoData
    ensures Ready(cmd, s) ==> Snapshot(s, t, next.undoData)
  {
    t, result := Run(cmd.action, cmd.allFrames, s);
    next := cmd;
    if cmd.undoData == map[] {
      next := cmd.(undoData := result);
    }
    if cmd.undoData != map[] && Ready(cmd, s) {
      SnapshotDetermined(s, t, result, cmd.undoData);
    }
  }

  /** Two snapshots of the same frames of the same store are the same. */
  lemma SnapshotDetermined(s: Store, t: Store, result: map<int, Image>, captured: map<int, Image>)
    requires Snapshot(s, t, result)
    requires captured.Keys == result.Keys
    requires forall i :: i in captured ==> 0 <= i < |s.frames| && captured[i] == s.frames[i].image
    ensures Snapshot(s, t, captured)
  {
  }

  /** The store with every captured image written back. */
  function Restore(s: Store, snapshot: map<int, Image>): (t: Store)
    ensures t.current == s.current && |t.frames| == |s.frames|
    ensures forall i :: 0 <= i < |s.frames| ==>
      t.frames[i] == if i in snapshot then s.frames[i].(image := snapshot[i]) else s.frames[i]
  {
    s.(frames := seq(|s.frames|, i requires 0 <= i < |s.frames| =>
                       if i in snapshot then s.frames[i].(image := snapshot[i]) else s.frames[i]))
  }

  /** undo: setImage for every captured frame, in ascending index order
      (indices outside the store are ignored by setImage). */
  method UndoCommand(cmd: Command, s: Store) returns (t: Store)
    ensures t == Restore(s, cmd.undoData)
  {
    t := s;
    var i := 0;
    while i < |s.frames|
      invariant 0 <= i <= |s.frames|
      invariant t.current == s.current && |t.frames| == |s.frames|
      invariant forall j :: 0 <= j < |s.frames| ==>
        t.frames[j] == if j < i && j in cmd.undoData then s.frames[j].(image := cmd.undoData[j]) else s.frames[j]
    {
      if i in cmd.undoData {
        t := SetImage(t, i, cmd.undoData[i]);
      }
      i := i + 1;
    }
  }

  /** Writing a snapshot back undoes the change it was taken for. */
  lemma RestoreUndoes(s: Store, t: Store, snapshot: map<int, Image>)
    requires Snapshot(s, t, snapshot)
    ensures Restore(t, snapshot) == s
  {
    var r := Restore(t, snapshot);
    forall i | 0 <= i < |s.frames|
      ensures r.frames[i] == s.frames[i]
    {
      if i in snapshot {
        assert r.frames[i] == t.frames[i].(image := s.frames[i].image);
      }
    }
  }

  /** redo then undo on a fresh command gives back the store. */
  method RedoUndo(cmd: Command, s: Store) returns (next: Command, after: Store)
    requires cmd.undoData == map[]
    ensures next.action == cmd.action && next.allFrames == cmd.allFrames
    ensures after == s
    ensures Ready(next, s)
  {
    var t, result;
    next, t, result := Redo(cmd, s);
    after := UndoCommand(next, t);
    RestoreUndoes(s, t, next.undoData);
  }

  /** The kept snapshot can describe another frame. A current-frame swap
      captured frame 0 and was undone; the current frame then moved to 1
      outside the undo history. Redo swaps frame 1 but keeps the snapshot
      of frame 0, so the next undo writes frame 0 back and leaves frame 1
      swapped. */
  method StaleSnapshot(cmd: Command, s: Store, captured: Image) returns (next: Command, after: Store)
    requires cmd.action.SwapColors? && !cmd.allFrames && cmd.undoData == map[0 := captured]
    requires |s.frames| == 2 && s.current == 1
    requires ReplaceColors(CurrentRevision, s.frames[1].image, cmd.action.swaps) != s.frames[1].image
    ensures !Ready(cmd, s)
    ensures next.undoData == cmd.undoData
    ensures |after.frames| == 2
    ensures after.frames[1].image == ReplaceColors(CurrentRevision, s.frames[1].image, cmd.action.swaps)
    ensures after != s
  {
    var swaps := cmd.action.swaps;
    assert Reported(cmd.action, cmd.allFrames, s) == {1};
    var t, result;
    next, t, result := Redo(cmd, s);
    assert |t.frames| == 2 && 1 in result;
    assert t.frames[1].image == ReplaceColors(CurrentRevision, s.frames[1].image, swaps);
    assert 0 in cmd.undoData && next.undoData == cmd.undoData;
    after := UndoCommand(next, t);
    RestoreKeeps(t, next.undoData, 1);
  }

  /** Restoring leaves a frame the snapshot does not hold as it is. */
  lemma RestoreKeeps(t: Store, snapshot: map<int, Image>, i: int)
    requires 0 <= i < |t.frames| && i !in snapshot
    ensures |Restore(t, snapshot).frames| == |t.frames|
    ensures Restore(t, snapshot).frames[i] == t.frames[i]
  {
  }

  /** redo that always keeps the snapshot of its own run, so the snapshot
      describes whatever frames this redo changed. */
  method RedoCapturing(cmd: Command, s: Store) returns (next: Command, t: Store, result: map<int, Image>)
    ensures next.action == cmd.action && next.allFrames == cmd.allFrames
    ensures Snapshot(s, t, result) && result.Keys == Reported(cmd.action, cmd.allFrames, s)
    ensures Applied(cmd.action, s, t, result)
    ensures next.undoData == result
  {
    t, result := Run(cmd.action, cmd.allFrames, s);
    next := cmd.(undoData := result);
  }

  /** With the snapshot retaken on every redo, redo then undo gives back
      the store whatever the command captured before and wherever the
      current frame has moved. */
  method RedoCapturingUndo(cmd: Command, s: Store) returns (next: Command, after: Store)
    ensures next.action == cmd.action && next.allFrames == cmd.allFrames
    ensures after == s
  {
    var t, result;
    next, t, result := RedoCapturing(cmd, s);
    after := UndoCommand(next, t);
    RestoreUndoes(s, t, next.undoData);
  }

  /** redo, undo, redo, undo on a fresh command gives back the store: the
      second redo keeps the first snapshot, which still describes it. */
  method RedoUndoTwice(cmd: Command, s: Store) returns (last: Command, after: Store)
    requires cmd.undoData == map[]
    ensures last.action == cmd.action && last.allFrames == cmd.allFrames
    ensures after == s
  {
    var first, back := RedoUndo(cmd, s);
    var t, result;
    last, t, result := Redo(first, back);
    after := UndoCommand(last, t);
    RestoreUndoes(s, t, last.undoData);
  }
}
