/** String helpers the source takes from Rust's `str`: `split` on one character,
    `join`, and "the first line of a message". */
module Strings {

  /** Position of the first `d` in `s`, or `|s|` when there is none. */
  function IndexOf(s: string, d: char): (i: nat)
    ensures i <= |s|
    ensures i < |s| ==> s[i] == d
    ensures forall k | 0 <= k < i :: s[k] != d
  {
    if |s| == 0 then 0
    else if s[0] == d then 0
    else 1 + IndexOf(s[1..], d)
  }

  /** `parts` joined with `sep` between neighbours (Rust's `join`). */
  function Join(parts: seq<string>, sep: string): string
  {
    if |parts| == 0 then ""
    else if |parts| == 1 then parts[0]
    else parts[0] + sep + Join(parts[1..], sep)
  }

  /** `s.split(d)` collected into a vector: the pieces between the occurrences of
      `d`, always at least one. */
  function Split(s: string, d: char): (r: seq<string>)
    ensures |r| >= 1
    decreases |s|
  {
    var i := IndexOf(s, d);
    if i == |s| then [s]
    else [s[..i]] + Split(s[i + 1..], d)
  }

  /** A split has two or more pieces exactly when the delimiter occurs. */
  lemma SplitCount(s: string, d: char)
    ensures (d in s) <==> |Split(s, d)| >= 2
  {
    var i := IndexOf(s, d);
    if d in s {
      var k :| 0 <= k < |s| && s[k] == d;
      assert i <= k;
    }
  }

  /** No piece of a split holds the delimiter. */
  lemma {:induction false} SplitFree(s: string, d: char)
    ensures forall k | 0 <= k < |Split(s, d)| :: d !in Split(s, d)[k]
    decreases |s|
  {
    var i := IndexOf(s, d);
    if i < |s| {
      SplitFree(s[i + 1..], d);
      assert Split(s, d) == [s[..i]] + Split(s[i + 1..], d);
    }
  }

  /** Joining the pieces of a split with the separator gives the string back. */
  lemma {:induction false} JoinSplit(s: string, d: char)
    ensures Join(Split(s, d), [d]) == s
    decreases |s|
  {
    var i := IndexOf(s, d);
    if i < |s| {
      var head, t := s[..i], s[i + 1..];
      var rest := Split(t, d);
      var parts := [head] + rest;
      assert Split(s, d) == parts;
      assert parts[0] == head && parts[1..] == rest;
      JoinSplit(t, d);
      assert Join(parts, [d]) == head + [d] + t;
      assert s == head + [d] + t;
    }
  }

  /** The first line of a message: `message.split("\n").nth(0)`. */
  function FirstLine(message: string): string
  {
    Split(message, '\n')[0]
  }

  lemma IndexOfFirst(a: string, d: char, b: string)
    requires d !in a
    ensures IndexOf(a + [d] + b, d) == |a|
  {
    var s := a + [d] + b;
    assert s[|a|] == d;
    assert s[..|a|] == a;
  }

  lemma {:induction false} FirstLineIsPrefix(message: string)
    ensures FirstLine(message) <= message
    ensures '\n' !in FirstLine(message)
    ensures |FirstLine(message)| < |message| ==> message[|FirstLine(message)|] == '\n'
  {
    var i := IndexOf(message, '\n');
    if i < |message| {
      var rest := Split(message[i + 1..], '\n');
      assert Split(message, '\n') == [message[..i]] + rest;
    }
  }

  /** Splitting a joined list of `d`-free pieces gives the pieces back. */
  lemma {:induction false} SplitJoin(parts: seq<string>, d: char)
    requires |parts| >= 1
    requires forall k | 0 <= k < |parts| :: d !in parts[k]
    ensures Split(Join(parts, [d]), d) == parts
    decreases |parts|
  {
    if |parts| > 1 {
      var rest := Join(parts[1..], [d]);
      var s := Join(parts, [d]);
      assert s == parts[0] + [d] + rest;
      IndexOfFirst(parts[0], d, rest);
      assert s[|parts[0]| + 1..] == rest;
      assert s[..|parts[0]|] == parts[0];
      SplitJoin(parts[1..], d);
      assert parts == [parts[0]] + parts[1..];
    } else {
      assert d !in parts[0];
    }
  }

  /** `v` is the longest `d`-free suffix of `s`: a suffix, with `d` (or nothing)
      just before it. */
  predicate IsLastPiece(s: string, d: char, v: string)
  {
    d !in v && |v| <= |s| && s[|s| - |v|..] == v && (|v| < |s| ==> s[|s| - |v| - 1] == d)
  }

  /** `p` is what lies between the first and the second `d` of `s` (or its end). */
  predicate IsSecondPiece(s: string, d: char, p: string)
  {
    var i := IndexOf(s, d);
    i < |s| && d !in p && i + 1 + |p| <= |s| && s[i + 1..i + 1 + |p|] == p &&
    (i + 1 + |p| < |s| ==> s[i + 1 + |p|] == d)
  }

  lemma {:induction false} LastPiece(s: string, d: char)
    ensures IsLastPiece(s, d, Split(s, d)[|Split(s, d)| - 1])
    decreases |s|
  {
    var i := IndexOf(s, d);
    if i == |s| {
      assert Split(s, d) == [s];
      assert s[|s| - |s|..] == s;
    } else {
      var t := s[i + 1..];
      var rest := Split(t, d);
      SplitHead(s, d);
      assert Split(s, d)[|Split(s, d)| - 1] == rest[|rest| - 1];
      LastPiece(t, d);
      LastPieceAfter(s, d, i, rest[|rest| - 1]);
    }
  }

  /** The last piece after a delimiter is the last piece of the whole string. */
  lemma LastPieceAfter(s: string, d: char, i: int, v: string)
    requires 0 <= i < |s| && s[i] == d
    requires IsLastPiece(s[i + 1..], d, v)
    ensures IsLastPiece(s, d, v)
  {
    var t := s[i + 1..];
    assert s[|s| - |v|..] == t[|t| - |v|..];
    if |v| < |t| {
      assert s[|s| - |v| - 1] == t[|t| - |v| - 1];
    }
  }

  lemma SplitHead(s: string, d: char)
    ensures Split(s, d)[0] == s[..IndexOf(s, d)]
    ensures IndexOf(s, d) < |s| ==> Split(s, d)[1..] == Split(s[IndexOf(s, d) + 1..], d)
  {
  }

  lemma SecondPiece(s: string, d: char)
    requires d in s
    ensures IsSecondPiece(s, d, Split(s, d)[1])
  {
    var i := IndexOf(s, d);
    SplitCount(s, d);
    SplitHead(s, d);
    var t := s[i + 1..];
    assert Split(s, d)[1] == Split(t, d)[0];
    SecondPieceAt(s, d, i, Split(t, d)[0]);
  }

  /** The first piece after the first delimiter is the second piece. */
  lemma SecondPieceAt(s: string, d: char, i: nat, p: string)
    requires i == IndexOf(s, d) < |s|
    requires p == Split(s[i + 1..], d)[0]
    ensures IsSecondPiece(s, d, p)
  {
    var t := s[i + 1..];
    FirstPiece(t, d);
    assert s[i + 1..i + 1 + |p|] == t[..|p|];
    assert i + 1 + |p| < |s| ==> s[i + 1 + |p|] == t[|p|];
  }

  /** The first piece of a split runs up to the first delimiter. */
  lemma FirstPiece(t: string, d: char)
    ensures var p := Split(t, d)[0];
      |p| <= |t| && p == t[..|p|] && d !in p && (|p| < |t| ==> t[|p|] == d)
  {
    SplitHead(t, d);
  }

  /** A character that is in no piece and not in the separator is not in the join. */
  lemma {:induction false} JoinFree(parts: seq<string>, sep: string, c: char)
    requires c !in sep
    requires forall k | 0 <= k < |parts| :: c !in parts[k]
    ensures c !in Join(parts, sep)
    decreases |parts|
  {
    if |parts| > 1 {
      JoinFree(parts[1..], sep, c);
    }
  }
}
