/** Splitting text at a separator character, as `QString::indexOf`,
    `left`, `mid` and `split` do it. */
module Strings {

  /** Where `c` first occurs in `a`, or `|a|` if it does not. */
  function IndexOf(a: string, c: char): (i: nat)
    ensures i <= |a| && c !in a[..i]
    ensures i < |a| ==> a[i] == c
    ensures i == |a| <==> c !in a
  {
    if a == [] || a[0] == c then 0
    else
      var i := IndexOf(a[1..], c);
      assert a == [a[0]] + a[1..];
      assert a[..i + 1] == [a[0]] + a[1..][..i];
      1 + i
  }

  lemma {:induction false} IndexOfSplit(x: string, y: string, c: char)
    requires c !in x
    ensures IndexOf(x + [c] + y, c) == |x|
  {
    if x != [] {
      assert (x + [c] + y)[1..] == x[1..] + [c] + y;
      IndexOfSplit(x[1..], y, c);
    }
  }

  /** Splitting at the first occurrence of a separator is unambiguous. */
  lemma SplitAt(x: string, y: string, u: string, v: string, sep: char)
    requires sep !in x && sep !in u
    requires x + [sep] + y == u + [sep] + v
    ensures x == u && y == v
  {
    var a := x + [sep] + y;
    IndexOfSplit(x, y, sep);
    IndexOfSplit(u, v, sep);
    assert x == a[..|x|] && u == a[..|u|];
    assert y == a[|x| + 1..] && v == a[|u| + 1..];
  }

  /** The pieces between the separators, empty pieces included. */
  function Split(s: string, sep: char): (parts: seq<string>)
    ensures |parts| > 0
    ensures forall k :: 0 <= k < |parts| ==> sep !in parts[k]
    decreases |s|
  {
    var i := IndexOf(s, sep);
    if i == |s| then
      assert s[..i] == s;
      [s]
    else [s[..i]] + Split(s[i + 1..], sep)
  }

  /** The pieces glued back together with the separator between them. */
  function Join(parts: seq<string>, sep: char): string
    requires |parts| > 0
  {
    if |parts| == 1 then parts[0] else parts[0] + [sep] + Join(parts[1..], sep)
  }

  /** Joining the pieces gives back the text. */
  lemma {:induction false} JoinSplit(s: string, sep: char)
    ensures Join(Split(s, sep), sep) == s
    decreases |s|
  {
    var i := IndexOf(s, sep);
    if i < |s| {
      JoinSplit(s[i + 1..], sep);
      assert s == s[..i] + [sep] + s[i + 1..];
    }
  }

  /** Splitting a join of separator-free pieces gives back the pieces. */
  lemma {:induction false} SplitJoin(parts: seq<string>, sep: char)
    requires |parts| > 0
    requires forall k :: 0 <= k < |parts| ==> sep !in parts[k]
    ensures Split(Join(parts, sep), sep) == parts
  {
    if |parts| > 1 {
      SplitCons(parts[0], Join(parts[1..], sep), sep);
      SplitJoin(parts[1..], sep);
      assert parts == [parts[0]] + parts[1..];
    }
  }

  /** A separator-free piece followed by the separator splits off first. */
  lemma SplitCons(x: string, y: string, sep: char)
    requires sep !in x
    ensures Split(x + [sep] + y, sep) == [x] + Split(y, sep)
  {
    var s := x + [sep] + y;
    IndexOfSplit(x, y, sep);
    assert s[..|x|] == x && s[|x| + 1..] == y;
  }

  /** Text holding the separator is the part before its first occurrence,
      the separator, and the rest. */
  lemma AroundFirst(a: string, c: char)
    requires c in a
    ensures var i := IndexOf(a, c);
      i < |a| && c !in a[..i] && a == a[..i] + [c] + a[i + 1..]
  {
    var i := IndexOf(a, c);
    assert a == a[..i] + [a[i]] + a[i + 1..];
  }
}
