/** ImageSequence: the ordered frames of an animation with a current
    position, the bounds-checked accessors, and the engine entry points
    that run colour swap, guide check or alpha check on the current frame
    or on every frame. Each entry point also returns the snapshot the undo
    commands keep: frame index to the frame's image before the call, for
    every frame it processed. */
module FrameStore {
  import opened Colors
  import opened Images
  import Tga
  import opened ColorSwapEngine
  import opened Checks

  /** A loaded file: where it came from and its pixels. */
  datatype Frame = Frame(path: string, image: Image)

  /** The frames and the current position; -1 while nothing is loaded. */
  datatype Store = Store(frames: seq<Frame>, current: int)

  /** A new sequence: no frames, no current frame. */
  const Empty := Store([], -1)

  /** The position is a frame exactly when there are frames. */
  predicate Consistent(s: Store) {
    if s.frames == [] then s.current == -1 else 0 <= s.current < |s.frames|
  }

  /** Decoding a file. `decode` stands for `QImage(path)` followed by the
      conversion to ARGB32, `read` for the file's bytes; both are outside
      the model. The current revision falls back to the TGA reader when Qt
      gives up on a `.tga` file, the first revision has no fallback. */
  function LoadImage(rev: Revision, path: string, decode: string -> Image, read: string -> seq<Tga.Byte>): Image {
    var img := decode(path);
    if rev == CurrentRevision && IsNull(img) && HasTgaSuffix(path) then Tga.Decode(read(path))
    else img
  }

  /** ASCII lower case. */
  function Lower(c: char): (l: char)
    ensures 'A' <= c <= 'Z' ==> l as int == c as int + 32
    ensures !('A' <= c <= 'Z') ==> l == c
  {
    if 'A' <= c <= 'Z' then (c as int + 32) as char else c
  }

  /** The path ends in ".tga", ignoring case. */
  predicate HasTgaSuffix(path: string) {
    var n := |path|;
    && n >= 4
    && path[n - 4] == '.'
    && Lower(path[n - 3]) == 't' && Lower(path[n - 2]) == 'g' && Lower(path[n - 1]) == 'a'
  }

  /** The positions of the paths that decode, in ascending order: the
      reference for which files become frames. */
  function Kept(rev: Revision, paths: seq<string>, decode: string -> Image, read: string -> seq<Tga.Byte>): (idx: seq<nat>)
    ensures forall k :: 0 <= k < |idx| ==> idx[k] < |paths| && !IsNull(LoadImage(rev, paths[idx[k]], decode, read))
    ensures forall k, l :: 0 <= k < l < |idx| ==> idx[k] < idx[l]
    ensures forall i :: 0 <= i < |paths| && !IsNull(LoadImage(rev, paths[i], decode, read)) ==> i in idx
  {
    if paths == [] then []
    else
      var n := |paths| - 1;
      var init := Kept(rev, paths[..n], decode, read);
      if IsNull(LoadImage(rev, paths[n], decode, read)) then init else init + [n]
  }

  /** loadSequence: the frames are the decodable paths, in the given order,
      each with its decoded image; the current frame is the first one, or
      none if nothing decoded. */
  method LoadSequence(rev: Revision, paths: seq<string>, decode: string -> Image, read: string -> seq<Tga.Byte>)
    returns (s: Store)
    ensures Consistent(s)
    ensures var idx := Kept(rev, paths, decode, read);
      |s.frames| == |idx|
      && forall k :: 0 <= k < |idx| ==> s.frames[k] == Frame(paths[idx[k]], LoadImage(rev, paths[idx[k]], decode, read))
    ensures s.current == (if s.frames == [] then -1 else 0)
  {
    var frames: seq<Frame> := [];
    var i := 0;
    while i < |paths|
      invariant 0 <= i <= |paths|
      invariant Loaded(rev, paths, i, decode, read, frames)
    {
      frames := LoadAt(rev, paths, i, decode, read, frames);
      i := i + 1;
    }
    assert paths[..i] == paths;
    s := Store(frames, if frames == [] then -1 else 0);
  }

  /** The frames hold the decodable files among the first `i` paths. */
  predicate Loaded(rev: Revision, paths: seq<string>, i: nat, decode: string -> Image, read: string -> seq<Tga.Byte>,
                   frames: seq<Frame>)
    requires i <= |paths|
  {
    var idx := Kept(rev, paths[..i], decode, read);
    && |frames| == |idx|
    && forall k :: 0 <= k < |idx| ==> frames[k] == Frame(paths[idx[k]], LoadImage(rev, paths[idx[k]], decode, read))
  }

  /** One file of the loading loop: kept when it decodes. */
  method LoadAt(rev: Revision, paths: seq<string>, i: nat, decode: string -> Image, read: string -> seq<Tga.Byte>,
                frames: seq<Frame>) returns (frames': seq<Frame>)
    requires i < |paths| && Loaded(rev, paths, i, decode, read, frames)
    ensures Loaded(rev, paths, i + 1, decode, read, frames')
  {
    var front := paths[..i + 1];
    assert front[..i] == paths[..i] && front[i] == paths[i];
    var idx := Kept(rev, paths[..i], decode, read);
    var img := LoadImage(rev, paths[i], decode, read);
    if IsNull(img) {
      frames' := frames;
      assert Kept(rev, front, decode, read) == idx;
    } else {
      frames' := frames + [Frame(paths[i], img)];
      var idx' := idx + [i];
      assert Kept(rev, front, decode, read) == idx';
      forall k | 0 <= k < |idx'|
        ensures frames'[k] == Frame(paths[idx'[k]], LoadImage(rev, paths[idx'[k]], decode, read))
      {
        if k < |idx| {
          assert frames'[k] == frames[k] && idx'[k] == idx[k];
        }
      }
    }
  }

  /** currentImage: the current frame's image, or the null image. */
  function CurrentImage(s: Store): (img: Image)
    ensures 0 <= s.current < |s.frames| ==> img == s.frames[s.current].image
    ensures !(0 <= s.current < |s.frames|) ==> img == Null
  {
    ImageAt(s, s.current)
  }

  /** imageAt: the image of frame `index`, or the null image. */
  function ImageAt(s: Store, index: int): (img: Image)
    ensures 0 <= index < |s.frames| ==> img == s.frames[index].image
    ensures !(0 <= index < |s.frames|) ==> img == Null
  {
    if 0 <= index < |s.frames| then s.frames[index].image else Null
  }

  /** currentFilePath: the current frame's path, or the empty string. */
  function CurrentFilePath(s: Store): (path: string)
    ensures 0 <= s.current < |s.frames| ==> path == s.frames[s.current].path
    ensures !(0 <= s.current < |s.frames|) ==> path == ""
  {
    if 0 <= s.current < |s.frames| then s.frames[s.current].path else ""
  }

  function Count(s: Store): nat {
    |s.frames|
  }

  /** setCurrentIndex: moves to `index` if it names another frame;
      `changed` is whether the change is announced. */
  function SetCurrentIndex(s: Store, index: int): (r: (Store, bool))
    ensures r.0.frames == s.frames
    ensures r.1 <==> 0 <= index < |s.frames| && index != s.current
    ensures r.0.current == (if 0 <= index < |s.frames| then index else s.current)
  {
    if 0 <= index < |s.frames| && index != s.current then (s.(current := index), true)
    else (s, false)
  }

  /** setImage: replaces the image of frame `index`, if there is one.
      Only its declaration survives; this is the bounds-checked reading
      the undo commands rely on. */
  function SetImage(s: Store, index: int, img: Image): (t: Store)
    ensures t.current == s.current && |t.frames| == |s.frames|
    ensures forall i :: 0 <= i < |s.frames| ==>
      t.frames[i] == if i == index then s.frames[i].(image := img) else s.frames[i]
  {
    if 0 <= index < |s.frames| then s.(frames := s.frames[index := s.frames[index].(image := img)])
    else s
  }

  /** Reading back a write: after setImage, frame `j` shows the written
      image exactly when `j` is the in-range frame that was written, and
      otherwise what it showed before; the current path does not move. */
  lemma ImageAtSetImage(s: Store, index: int, img: Image, j: int)
    ensures ImageAt(SetImage(s, index, img), j) == if 0 <= index < |s.frames| && j == index then img else ImageAt(s, j)
    ensures CurrentFilePath(SetImage(s, index, img)) == CurrentFilePath(s)
  {
  }

  /** The current image is the image at the current position; after
      moving to an in-range frame, the current image and path are that
      frame's. */
  lemma CurrentReadsAt(s: Store, index: int)
    ensures CurrentImage(s) == ImageAt(s, s.current)
    ensures 0 <= index < |s.frames| ==>
      && CurrentImage(SetCurrentIndex(s, index).0) == ImageAt(s, index)
      && CurrentFilePath(SetCurrentIndex(s, index).0) == s.frames[index].path
  {
  }

  /** `t` came from `s` by changing images only, and `snapshot` holds the
      earlier image of every frame that changed (and of no other index). */
  predicate Snapshot(s: Store, t: Store, snapshot: map<int, Image>) {
    && t.current == s.current
    && |t.frames| == |s.frames|
    && (forall i :: 0 <= i < |s.frames| ==> t.frames[i].path == s.frames[i].path)
    && (forall i :: i in snapshot ==> 0 <= i < |s.frames| && snapshot[i] == s.frames[i].image)
    && (forall i :: 0 <= i < |s.frames| && i !in snapshot ==> t.frames[i] == s.frames[i])
  }

  /** The current frame's index as a set, or no index. */
  function CurrentKeys(s: Store): (keys: set<int>)
    ensures forall i :: i in keys <==> i == s.current && 0 <= i < |s.frames|
  {
    if 0 <= s.current < |s.frames| then {s.current} else {}
  }

  /** The indices 0 to n - 1. */
  function Below(n: int): (keys: set<int>)
    ensures forall i :: i in keys <==> 0 <= i < n
    decreases n
  {
    if n <= 0 then {} else Below(n - 1) + {n - 1}
  }

  function AllKeys(s: Store): (keys: set<int>)
    ensures forall i :: i in keys <==> 0 <= i < |s.frames|
  {
    Below(|s.frames|)
  }

  /** replaceColorsInCurrentFrame: the current frame, if there is one,
      goes through the rules; it is reported whether or not it changed. */
  method ReplaceColorsInCurrentFrame(rev: Revision, s: Store, rules: seq<ColorSwap>)
    returns (t: Store, touched: map<int, Image>)
    ensures Snapshot(s, t, touched)
    ensures touched.Keys == CurrentKeys(s)
    ensures forall i :: i in touched ==> t.frames[i].image == ReplaceColors(rev, s.frames[i].image, rules)
  {
    if s.current < 0 || s.current >= |s.frames| {
      return s, map[];
    }
    var img := ReplaceColorsInImage(rev, s.frames[s.current].image, rules);
    t := SetImage(s, s.current, img);
    touched := map[s.current := s.frames[s.current].image];
  }

  /** replaceColorsInAllFrames: every frame goes through the rules, in
      ascending order, and every frame is reported. */
  method ReplaceColorsInAllFrames(rev: Revision, s: Store, rules: seq<ColorSwap>)
    returns (t: Store, touched: map<int, Image>)
    ensures Snapshot(s, t, touched)
    ensures touched.Keys == AllKeys(s)
    ensures forall i :: i in touched ==> t.frames[i].image == ReplaceColors(rev, s.frames[i].image, rules)
  {
    t, touched := s, map[];
    var i := 0;
    while i < |s.frames|
      invariant 0 <= i <= |s.frames|
      invariant Progress(s, t, touched, i, Below(i))
      invariant Swapped(rev, s, t, touched, rules)
    {
      t, touched := SwapAt(rev, s, t, touched, i, rules);
      i := i + 1;
    }
  }

  /** Every frame in the snapshot went through the rules. */
  ghost predicate Swapped(rev: Revision, s: Store, t: Store, touched: map<int, Image>, rules: seq<ColorSwap>)
    requires Snapshot(s, t, touched)
  {
    forall j :: j in touched ==> t.frames[j].image == ReplaceColors(rev, s.frames[j].image, rules)
  }

  /** A pass over the frames has reached frame `i`: the snapshot covers
      `keys`, and frames `i` onwards are untouched. */
  ghost predicate Progress(s: Store, t: Store, touched: map<int, Image>, i: int, keys: set<int>) {
    && 0 <= i <= |s.frames|
    && Snapshot(s, t, touched)
    && touched.Keys == keys
    && forall j :: i <= j < |s.frames| ==> t.frames[j] == s.frames[j]
  }

  /** Frame `i` of the pass through the colour rules. */
  method SwapAt(rev: Revision, s: Store, t: Store, touched: map<int, Image>, i: int, rules: seq<ColorSwap>)
    returns (t': Store, touched': map<int, Image>)
    requires i < |s.frames| && Progress(s, t, touched, i, Below(i)) && Swapped(rev, s, t, touched, rules)
    ensures Progress(s, t', touched', i + 1, Below(i + 1)) && Swapped(rev, s, t', touched', rules)
  {
    var img := ReplaceColorsInImage(rev, t.frames[i].image, rules);
    SnapshotStep(s, t, touched, i, img);
    t' := SetImage(t, i, img);
    touched' := touched[i := s.frames[i].image];
  }

  /** The frames the guide check changes: those where an enabled rule finds a pixel. */
  ghost function GuideKeys(s: Store, params: seq<GuideParams>, keys: set<int>): (hits: set<int>)
    ensures forall i :: i in hits <==> i in keys && 0 <= i < |s.frames|
                                       && exists r :: 0 <= r < |params| && params[r].enabled && RuleHits(s.frames[i].image, params[r])
  {
    set i | i in keys && 0 <= i < |s.frames|
             && exists r :: 0 <= r < |params| && params[r].enabled && RuleHits(s.frames[i].image, params[r])
  }

  /** The frames the alpha check changes: those with a fully transparent pixel. */
  ghost function AlphaKeys(s: Store, keys: set<int>): (hits: set<int>)
    ensures forall i :: i in hits <==> i in keys && 0 <= i < |s.frames| && HasClear(s.frames[i].image)
  {
    set i | i in keys && 0 <= i < |s.frames| && HasClear(s.frames[i].image)
  }

  ghost predicate HasClear(img: Image) {
    exists p :: InBounds(img.width, img.height, p) && Clear(img, p)
  }

  /** Processing the current frame: it is replaced and reported exactly
      when it is hit. */
  lemma CurrentSnapshot(s: Store, t: Store, hit: bool)
    requires 0 <= s.current < |s.frames|
    requires t.current == s.current && |t.frames| == |s.frames|
    requires forall j :: 0 <= j < |s.frames| && (j != s.current || !hit) ==> t.frames[j] == s.frames[j]
    requires hit ==> t.frames[s.current].path == s.frames[s.current].path
    ensures Snapshot(s, t, if hit then map[s.current := s.frames[s.current].image] else map[])
  {
  }

  /** Every reported frame now holds what the guide check draws on its
      earlier image. */
  ghost predicate GuideChecked(s: Store, t: Store, touched: map<int, Image>, params: seq<GuideParams>)
    requires Snapshot(s, t, touched)
  {
    forall j :: j in touched ==> GuideDrawn(s.frames[j].image, params, t.frames[j].image)
  }

  /** Every reported frame now holds what the alpha check draws on its
      earlier image. */
  ghost predicate AlphaChecked(s: Store, t: Store, touched: map<int, Image>, params: AlphaParams)
    requires Snapshot(s, t, touched)
  {
    forall j :: j in touched ==> AlphaDrawn(s.frames[j].image, params, t.frames[j].image)
  }

  /** The guide check on one image, as the store sees it: a change exactly
      when some enabled rule matches a pixel, and then the rings drawn. */
  method GuideImage(img: Image, params: seq<GuideParams>) returns (out: Image, modified: bool)
    ensures modified <==> exists r :: 0 <= r < |params| && params[r].enabled && RuleHits(img, params[r])
    ensures modified ==> GuideDrawn(img, params, out)
    ensures !modified ==> out == img
  {
    ghost var found;
    out, modified, found := GuideCheckImage(img, params);
  }

  /** One frame through the guide check: the frame is replaced only when
      the check reports a change. */
  method GuideFrame(s: Store, i: int, params: seq<GuideParams>) returns (t: Store, hit: bool)
    requires 0 <= i < |s.frames|
    ensures hit <==> exists r :: 0 <= r < |params| && params[r].enabled && RuleHits(s.frames[i].image, params[r])
    ensures t.current == s.current && |t.frames| == |s.frames|
    ensures forall j :: 0 <= j < |s.frames| && (j != i || !hit) ==> t.frames[j] == s.frames[j]
    ensures hit ==> t.frames[i].path == s.frames[i].path && GuideDrawn(s.frames[i].image, params, t.frames[i].image)
  {
    var img, modified := GuideImage(s.frames[i].image, params);
    hit := modified;
    if modified {
      t := SetImage(s, i, img);
    } else {
      t := s;
    }
  }

  /** The alpha check on one image, as the store sees it: a change exactly
      when some pixel is fully transparent, and then the crosses drawn. */
  method AlphaImage(img: Image, params: AlphaParams) returns (out: Image, modified: bool)
    ensures modified <==> HasClear(img)
    ensures modified ==> AlphaDrawn(img, params, out)
    ensures !modified ==> out == img
  {
    ghost var blobs;
    out, modified, blobs := AlphaCheckImage(img, params);
  }

  /** One frame through the alpha check: the frame is replaced only when
      the check reports a change. */
  method AlphaFrame(s: Store, i: int, params: AlphaParams) returns (t: Store, hit: bool)
    requires 0 <= i < |s.frames|
    ensures hit <==> HasClear(s.frames[i].image)
    ensures t.current == s.current && |t.frames| == |s.frames|
    ensures forall j :: 0 <= j < |s.frames| && (j != i || !hit) ==> t.frames[j] == s.frames[j]
    ensures hit ==> t.frames[i].path == s.frames[i].path && AlphaDrawn(s.frames[i].image, params, t.frames[i].image)
  {
    var img, modified := AlphaImage(s.frames[i].image, params);
    hit := modified;
    if modified {
      t := SetImage(s, i, img);
    } else {
      t := s;
    }
  }

  /** applyGuideCheckToCurrentFrame: nothing without rules or without a
      current frame; otherwise the current frame is checked and reported
      if the check changed it. */
  method GuideCheckCurrentFrame(s: Store, params: seq<GuideParams>) returns (t: Store, touched: map<int, Image>)
    ensures Snapshot(s, t, touched)
    ensures touched.Keys == if params == [] then {} else GuideKeys(s, params, CurrentKeys(s))
    ensures GuideChecked(s, t, touched, params)
  {
    if params == [] || s.current < 0 || s.current >= |s.frames| {
      return s, map[];
    }
    var hit;
    t, hit := GuideFrame(s, s.current, params);
    touched := if hit then map[s.current := s.frames[s.current].image] else map[];
    CurrentSnapshot(s, t, hit);
    GuideKeysCurrent(s, params, hit);
    if hit {
      GuideCheckedOne(s, t, params);
    }
  }

  /** The current frame, once checked, holds the check's drawing. */
  lemma GuideCheckedOne(s: Store, t: Store, params: seq<GuideParams>)
    requires 0 <= s.current < |s.frames|
    requires Snapshot(s, t, map[s.current := s.frames[s.current].image])
    requires GuideDrawn(s.frames[s.current].image, params, t.frames[s.current].image)
    ensures GuideChecked(s, t, map[s.current := s.frames[s.current].image], params)
  {
  }

  /** applyGuideCheckToAllFrames: nothing without rules; otherwise every
      frame is checked in ascending order and those the check changed are reported. */
  method GuideCheckAllFrames(s: Store, params: seq<GuideParams>) returns (t: Store, touched: map<int, Image>)
    ensures Snapshot(s, t, touched)
    ensures touched.Keys == if params == [] then {} else GuideKeys(s, params, AllKeys(s))
    ensures GuideChecked(s, t, touched, params)
  {
    t, touched := s, map[];
    if params == [] {
      return;
    }
    var i := 0;
    while i < |s.frames|
      invariant Progress(s, t, touched, i, GuideKeys(s, params, Below(i)))
      invariant GuideChecked(s, t, touched, params)
    {
      t, touched := GuideAt(s, t, touched, i, params);
      i := i + 1;
    }
  }

  /** Frame `i` of the guide check pass. */
  method GuideAt(s: Store, t: Store, touched: map<int, Image>, i: int, params: seq<GuideParams>)
    returns (t': Store, touched': map<int, Image>)
    requires i < |s.frames| && Progress(s, t, touched, i, GuideKeys(s, params, Below(i)))
    requires GuideChecked(s, t, touched, params)
    ensures Progress(s, t', touched', i + 1, GuideKeys(s, params, Below(i + 1)))
    ensures GuideChecked(s, t', touched', params)
  {
    var hit;
    assert t.frames[i] == s.frames[i];
    t', hit := GuideFrame(t, i, params);
    GuideKeysStep(s, params, i, hit);
    ProgressStep(s, t, touched, t', i, GuideKeys(s, params, Below(i)), hit);
    if hit {
      GuideCheckedStep(s, t, touched, t', i, params);
      touched' := touched[i := s.frames[i].image];
    } else {
      assert t' == t;
      touched' := touched;
    }
  }

  /** applyAlphaCheckToCurrentFrame: nothing without a current frame;
      otherwise the current frame is checked and reported if the check changed it. */
  method AlphaCheckCurrentFrame(s: Store, params: AlphaParams) returns (t: Store, touched: map<int, Image>)
    ensures Snapshot(s, t, touched)
    ensures touched.Keys == AlphaKeys(s, CurrentKeys(s))
    ensures AlphaChecked(s, t, touched, params)
  {
    if s.current < 0 || s.current >= |s.frames| {
      return s, map[];
    }
    var hit;
    t, hit := AlphaFrame(s, s.current, params);
    touched := if hit then map[s.current := s.frames[s.current].image] else map[];
    CurrentSnapshot(s, t, hit);
    AlphaKeysCurrent(s, hit);
    if hit {
      AlphaCheckedOne(s, t, params);
    }
  }

  /** The current frame, once checked, holds the check's drawing. */
  lemma AlphaCheckedOne(s: Store, t: Store, params: AlphaParams)
    requires 0 <= s.current < |s.frames|
    requires Snapshot(s, t, map[s.current := s.frames[s.current].image])
    requires AlphaDrawn(s.frames[s.current].image, params, t.frames[s.current].image)
    ensures AlphaChecked(s, t, map[s.current := s.frames[s.current].image], params)
  {
  }

  /** applyAlphaCheckToAllFrames: every frame is checked in ascending order
      and those the check changed are reported. */
  method AlphaCheckAllFrames(s: Store, params: AlphaParams) returns (t: Store, touched: map<int, Image>)
    ensures Snapshot(s, t, touched)
    ensures touched.Keys == AlphaKeys(s, AllKeys(s))
    ensures AlphaChecked(s, t, touched, params)
  {
    t, touched := s, map[];
    var i := 0;
    while i < |s.frames|
      invariant Progress(s, t, touched, i, AlphaKeys(s, Below(i)))
      invariant AlphaChecked(s, t, touched, params)
    {
      t, touched := AlphaAt(s, t, touched, i, params);
      i := i + 1;
    }
  }

  /** Frame `i` of the alpha check pass. */
  method AlphaAt(s: Store, t: Store, touched: map<int, Image>, i: int, params: AlphaParams)
    returns (t': Store, touched': map<int, Image>)
    requires i < |s.frames| && Progress(s, t, touched, i, AlphaKeys(s, Below(i)))
    requires AlphaChecked(s, t, touched, params)
    ensures Progress(s, t', touched', i + 1, AlphaKeys(s, Below(i + 1)))
    ensures AlphaChecked(s, t', touched', params)
  {
    var hit;
    assert t.frames[i] == s.frames[i];
    t', hit := AlphaFrame(t, i, params);
    AlphaKeysStep(s, i, hit);
    ProgressStep(s, t, touched, t', i, AlphaKeys(s, Below(i)), hit);
    if hit {
      AlphaCheckedStep(s, t, touched, t', i, params);
      touched' := touched[i := s.frames[i].image];
    } else {
      assert t' == t;
      touched' := touched;
    }
  }

  /** Checking one more frame, not yet reported, keeps every reported
      frame the guide check's drawing on its earlier image. */
  lemma GuideCheckedStep(s: Store, t: Store, touched: map<int, Image>, t': Store, i: int, params: seq<GuideParams>)
    requires Snapshot(s, t, touched) && GuideChecked(s, t, touched, params)
    requires 0 <= i < |s.frames| && i !in touched && t.frames[i] == s.frames[i]
    requires t'.current == t.current && |t'.frames| == |t.frames|
    requires forall j :: 0 <= j < |s.frames| && j != i ==> t'.frames[j] == t.frames[j]
    requires t'.frames[i].path == s.frames[i].path && GuideDrawn(s.frames[i].image, params, t'.frames[i].image)
    ensures Snapshot(s, t', touched[i := s.frames[i].image])
    ensures GuideChecked(s, t', touched[i := s.frames[i].image], params)
  {
    var touched' := touched[i := s.frames[i].image];
    forall j | j in touched'
      ensures GuideDrawn(s.frames[j].image, params, t'.frames[j].image)
    {
      if j != i {
        assert t'.frames[j] == t.frames[j];
      }
    }
  }

  /** Checking one more frame, not yet reported, keeps every reported
      frame the alpha check's drawing on its earlier image. */
  lemma AlphaCheckedStep(s: Store, t: Store, touched: map<int, Image>, t': Store, i: int, params: AlphaParams)
    requires Snapshot(s, t, touched) && AlphaChecked(s, t, touched, params)
    requires 0 <= i < |s.frames| && i !in touched && t.frames[i] == s.frames[i]
    requires t'.current == t.current && |t'.frames| == |t.frames|
    requires forall j :: 0 <= j < |s.frames| && j != i ==> t'.frames[j] == t.frames[j]
    requires t'.frames[i].path == s.frames[i].path && AlphaDrawn(s.frames[i].image, params, t'.frames[i].image)
    ensures Snapshot(s, t', touched[i := s.frames[i].image])
    ensures AlphaChecked(s, t', touched[i := s.frames[i].image], params)
  {
    var touched' := touched[i := s.frames[i].image];
    forall j | j in touched'
      ensures AlphaDrawn(s.frames[j].image, params, t'.frames[j].image)
    {
      if j != i {
        assert t'.frames[j] == t.frames[j];
      }
    }
  }

  /** One step of a pass: frame `i` is replaced and reported exactly when
      it is hit. */
  lemma ProgressStep(s: Store, t: Store, touched: map<int, Image>, t': Store, i: int, keys: set<int>, hit: bool)
    requires Progress(s, t, touched, i, keys) && i < |s.frames|
    requires t'.current == t.current && |t'.frames| == |t.frames|
    requires forall j :: 0 <= j < |s.frames| && (j != i || !hit) ==> t'.frames[j] == t.frames[j]
    requires hit ==> t'.frames[i].path == s.frames[i].path
    ensures Progress(s, t', if hit then touched[i := s.frames[i].image] else touched, i + 1,
                     keys + if hit then {i} else {})
  {
  }

  /** Changing one more frame, not yet changed, extends the snapshot by
      that frame's earlier image. */
  lemma SnapshotStep(s: Store, t: Store, touched: map<int, Image>, i: int, img: Image)
    requires Snapshot(s, t, touched)
    requires 0 <= i < |s.frames| && i !in touched && t.frames[i] == s.frames[i]
    ensures Snapshot(s, SetImage(t, i, img), touched[i := s.frames[i].image])
  {
  }

  lemma GuideKeysStep(s: Store, params: seq<GuideParams>, i: nat, hit: bool)
    requires i < |s.frames|
    requires hit <==> exists r :: 0 <= r < |params| && params[r].enabled && RuleHits(s.frames[i].image, params[r])
    ensures GuideKeys(s, params, Below(i + 1)) == GuideKeys(s, params, Below(i)) + if hit then {i} else {}
  {
  }

  lemma GuideKeysCurrent(s: Store, params: seq<GuideParams>, hit: bool)
    requires 0 <= s.current < |s.frames|
    requires hit <==> exists r :: 0 <= r < |params| && params[r].enabled && RuleHits(s.frames[s.current].image, params[r])
    ensures GuideKeys(s, params, CurrentKeys(s)) == if hit then {s.current} else {}
  {
  }

  lemma AlphaKeysCurrent(s: Store, hit: bool)
    requires 0 <= s.current < |s.frames|
    requires hit <==> HasClear(s.frames[s.current].image)
    ensures AlphaKeys(s, CurrentKeys(s)) == if hit then {s.current} else {}
  {
  }

  lemma AlphaKeysStep(s: Store, i: nat, hit: bool)
    requires i < |s.frames|
    requires hit <==> HasClear(s.frames[i].image)
    ensures AlphaKeys(s, Below(i + 1)) == AlphaKeys(s, Below(i)) + if hit then {i} else {}
  {
  }

  /** Every operation keeps the position consistent with the frames. */
  lemma ConsistentKept(s: Store, index: int, img: Image)
    requires Consistent(s)
    ensures Consistent(SetCurrentIndex(s, index).0)
    ensures Consistent(SetImage(s, index, img))
  {
  }
}
