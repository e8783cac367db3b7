/** AppController: the application state behind the window (the frame
    store, the colour swap rules, the status line and the custom colour
    palette) and the operations the interface calls. */
module App {
  import opened Colors
  import opened Images
  import opened Decimal
  import opened Strings
  import Tga
  import opened ColorSwapEngine
  import opened SwapModel
  import opened FrameStore

  const AppName := "CelPaint"

  /** The palette keeps at most this many custom colours (two rows of eight). */
  const MaxCustomColors := 16

  datatype Controller = Controller(store: Store, swaps: seq<ColorSwap>, status: string, customColors: seq<Rgba>)

  /** A new controller: nothing loaded, no rules, status "Ready", empty palette. */
  const Initial := Controller(Empty, [], "Ready", [])

  // ----- title -------------------------------------------------------------

  /** `QFileInfo(path).fileName()`: the text after the last '/'. */
  function FileName(path: string): (name: string)
    ensures '/' !in name
    ensures |name| <= |path| && name == path[|path| - |name|..]
    ensures |name| < |path| ==> path[|path| - |name| - 1] == '/'
  {
    if path == [] || path[|path| - 1] == '/' then []
    else
      var init := path[..|path| - 1];
      var name := FileName(init);
      assert init[|init| - |name|..] == name;
      name + [path[|path| - 1]]
  }

  /** The position part of the title: "[current/count]", 1-based. */
  function Position(s: Store): string {
    ['['] + (ToDecimal(s.current + 1) + ['/'] + (ToDecimal(|s.frames|) + [']']))
  }

  /** currentTitle: the application name alone while nothing is loaded,
      otherwise also the current file's name and its 1-based position. */
  function Title(s: Store): (title: string)
    ensures title == AppName <==> |s.frames| == 0
  {
    if Count(s) == 0 then AppName
    else
      var head := AppName + " - " + FileName(CurrentFilePath(s)) + " ";
      head + Position(s)
  }

  /** Different positions are written differently. */
  lemma PositionInjective(s: Store, t: Store)
    requires Position(s) == Position(t)
    ensures s.current == t.current && |s.frames| == |t.frames|
  {
    var a, b := ToDecimal(s.current + 1), ToDecimal(|s.frames|);
    var c, d := ToDecimal(t.current + 1), ToDecimal(|t.frames|);
    assert Position(s)[1..] == a + ['/'] + (b + [']']);
    assert Position(t)[1..] == c + ['/'] + (d + [']']);
    SplitAt(a, b + [']'], c, d + [']'], '/');
    assert b == (b + [']'])[..|b|] && d == (d + [']'])[..|d|];
    ToDecimalInjective(s.current + 1, t.current + 1);
    ToDecimalInjective(|s.frames|, |t.frames|);
  }

  /** The title tells the position and the frame count apart: two stores
      showing the same file under the same title are at the same position
      of equally long sequences. */
  lemma TitleShowsPosition(s: Store, t: Store)
    requires |s.frames| > 0 && |t.frames| > 0
    requires FileName(CurrentFilePath(s)) == FileName(CurrentFilePath(t))
    requires Title(s) == Title(t)
    ensures s.current == t.current && |s.frames| == |t.frames|
  {
    var head := AppName + " - " + FileName(CurrentFilePath(s)) + " ";
    assert Position(s) == Title(s)[|head|..];
    assert Position(t) == Title(t)[|head|..];
    PositionInjective(s, t);
  }

  // ----- opening a sequence ------------------------------------------------

  /** QString's `<=`: lexicographic order of the characters. */
  predicate Leq(a: string, b: string) {
    if a == [] then true
    else if b == [] then false
    else if a[0] != b[0] then a[0] < b[0]
    else Leq(a[1..], b[1..])
  }

  lemma {:induction false} LeqTotal(a: string, b: string)
    ensures Leq(a, b) || Leq(b, a)
  {
    if a != [] && b != [] && a[0] == b[0] {
      LeqTotal(a[1..], b[1..]);
    }
  }

  predicate Sorted(s: seq<string>) {
    forall i :: 0 < i < |s| ==> Leq(s[i - 1], s[i])
  }

  /** `x` placed before the first element it does not exceed. */
  function Insert(x: string, s: seq<string>): (r: seq<string>)
    requires Sorted(s)
    ensures Sorted(r)
    ensures multiset(r) == multiset(s) + multiset{x}
    ensures |r| == |s| + 1 && (r[0] == x || (|s| > 0 && r[0] == s[0]))
  {
    if s == [] then [x]
    else if Leq(x, s[0]) then [x] + s
    else
      LeqTotal(x, s[0]);
      var rest := Insert(x, s[1..]);
      assert s == [s[0]] + s[1..];
      [s[0]] + rest
  }

  /** The paths in ascending order, as `std::sort` leaves them. */
  function SortPaths(paths: seq<string>): (sorted: seq<string>)
    ensures Sorted(sorted)
    ensures multiset(sorted) == multiset(paths)
  {
    if paths == [] then []
    else
      assert paths == [paths[0]] + paths[1..];
      Insert(paths[0], SortPaths(paths[1..]))
  }

  /** openSequence: load the chosen paths in ascending order. When any
      frame loads, the status line reports how many. */
  method OpenSequence(c: Controller, paths: seq<string>, decode: string -> Image, read: string -> seq<Tga.Byte>)
    returns (r: Controller)
    ensures var sorted := SortPaths(paths);
      var idx := Kept(CurrentRevision, sorted, decode, read);
      && |r.store.frames| == |idx|
      && (forall k :: 0 <= k < |idx| ==> r.store.frames[k] == Frame(sorted[idx[k]], LoadImage(CurrentRevision, sorted[idx[k]], decode, read)))
    ensures r.store.current == (if r.store.frames == [] then -1 else 0)
    ensures r.swaps == c.swaps && r.customColors == c.customColors
    ensures r.status == if r.store.frames == [] then c.status else "Loaded " + ToDecimal(|r.store.frames|) + " frames"
  {
    var store := LoadSequence(CurrentRevision, SortPaths(paths), decode, read);
    r := c.(store := store);
    if store.frames != [] {
      r := SetStatusMessage(r, "Loaded " + ToDecimal(|store.frames|) + " frames").0;
    }
  }

  // ----- status, saving, picking -------------------------------------------

  /** setStatusMessage: the status line becomes `msg`; `changed` is whether
      that is announced, which happens only for a different message. */
  function SetStatusMessage(c: Controller, msg: string): (r: (Controller, bool))
    ensures r.0.status == msg
    ensures r.0.store == c.store && r.0.swaps == c.swaps && r.0.customColors == c.customColors
    ensures r.1 <==> msg != c.status
  {
    if c.status != msg then (c.(status := msg), true) else (c, false)
  }

  /** saveSequence: refused when nothing is loaded; otherwise the frames
      are written (outside the model) and the status line says so. */
  function SaveSequence(c: Controller): (r: (Controller, bool))
    ensures r.1 <==> |c.store.frames| > 0
    ensures !r.1 ==> r.0 == c
    ensures r.1 ==> r.0 == c.(status := "Sequence exported successfully.")
  {
    if Count(c.store) == 0 then (c, false)
    else (SetStatusMessage(c, "Sequence exported successfully.").0, true)
  }

  /** pickColorAt: the colour under (x, y) in the current frame becomes a
      source colour candidate; outside the frame nothing happens. */
  method PickColorAt(c: Controller, x: int, y: int) returns (r: Controller)
    ensures r.store == c.store && r.status == c.status && r.customColors == c.customColors
    ensures var img := CurrentImage(c.store);
      && (!InBounds(img.width, img.height, Point(x, y)) ==> r == c)
      && (InBounds(img.width, img.height, Point(x, y)) ==>
            var color := PixelAt(img, Point(x, y));
            r.swaps == if HasSource(c.swaps, color) then c.swaps else AddSwap(c.swaps, color, color, 0))
  {
    var img := CurrentImage(c.store);
    r := c;
    if x >= 0 && x < img.width && y >= 0 && y < img.height {
      var swaps := AddSourceColor(c.swaps, PixelAt(img, Point(x, y)));
      r := c.(swaps := swaps);
    }
  }

  /** applyColorReplacement: the current rules on every frame or on the
      current one, then a status message saying which. */
  method ApplyColorReplacement(c: Controller, allFrames: bool) returns (r: Controller)
    ensures r.swaps == c.swaps && r.customColors == c.customColors
    ensures r.store.current == c.store.current && |r.store.frames| == |c.store.frames|
    ensures forall i :: 0 <= i < |c.store.frames| ==>
      r.store.frames[i].image == if allFrames || i == c.store.current
        then ReplaceColors(CurrentRevision, c.store.frames[i].image, c.swaps)
        else c.store.frames[i].image
    ensures r.status == if allFrames then "Replaced colors in all frames." else "Replaced colors in current frame."
  {
    var store, touched;
    if allFrames {
      store, touched := ReplaceColorsInAllFrames(CurrentRevision, c.store, c.swaps);
      r := SetStatusMessage(c.(store := store), "Replaced colors in all frames.").0;
    } else {
      store, touched := ReplaceColorsInCurrentFrame(CurrentRevision, c.store, c.swaps);
      r := SetStatusMessage(c.(store := store), "Replaced colors in current frame.").0;
    }
  }

  // ----- custom colours ----------------------------------------------------

  /** addCustomColor: a colour already in the palette changes nothing;
      a new colour goes to the end, and when the palette is full the
      oldest colour makes room for it. */
  function AddCustomColor(colors: seq<Rgba>, color: Rgba): (r: seq<Rgba>)
    ensures color in r
    ensures color in colors ==> r == colors
    ensures color !in colors ==>
      && r[|r| - 1] == color
      && |r| == (if |colors| >= MaxCustomColors then |colors| else |colors| + 1)
      && r[..|r| - 1] == colors[|colors| - (|r| - 1)..]
  {
    if color in colors then colors
    else
      var kept := if |colors| >= MaxCustomColors then colors[1..] else colors;
      kept + [color]
  }

  predicate NoDuplicates(colors: seq<Rgba>) {
    forall i, j :: 0 <= i < j < |colors| ==> colors[i] != colors[j]
  }

  /** The palette never holds a colour twice and never exceeds its capacity. */
  lemma PaletteInvariant(colors: seq<Rgba>, color: Rgba)
    requires NoDuplicates(colors) && |colors| <= MaxCustomColors
    ensures NoDuplicates(AddCustomColor(colors, color))
    ensures |AddCustomColor(colors, color)| <= MaxCustomColors
  {
    var r := AddCustomColor(colors, color);
    if color !in colors {
      forall i, j | 0 <= i < j < |r|
        ensures r[i] != r[j]
      {
        if j < |r| - 1 {
          assert r[i] == r[..|r| - 1][i] && r[j] == r[..|r| - 1][j];
        } else {
          assert r[i] in colors;
        }
      }
    }
  }
}
