/**
 * The parts of java.lang.String that the gateway's rules rely on: prefix and
 * substring tests, `indexOf`, ASCII case mapping, `trim` and `split` on a
 * single-character separator (with Java's removal of trailing empty strings).
 */
module Strings {
  import opened Base

  predicate StartsWith(s: Str, p: Str) {
    |p| <= |s| && s[..|p|] == p
  }

  predicate EndsWith(s: Str, p: Str) {
    |p| <= |s| && s[|s| - |p|..] == p
  }

  lemma PrefixOfConcat(a: Str, b: Str)
    ensures StartsWith(a + b, a)
  {
    assert (a + b)[..|a|] == a;
  }

  lemma SuffixOfConcat(a: Str, b: Str)
    ensures EndsWith(a + b, b)
  {
    assert (a + b)[|a + b| - |b|..] == b;
  }

  lemma StartsWithTrans(s: Str, p: Str, q: Str)
    requires StartsWith(s, p) && StartsWith(p, q)
    ensures StartsWith(s, q)
  {
    assert s[..|q|] == s[..|p|][..|q|];
  }

  /** `s.indexOf(p)`: the first position at which `p` occurs in `s`, or -1. */
  function IndexOf(s: Str, p: Str): (r: int)
    ensures -1 <= r <= |s|
    ensures r >= 0 ==> StartsWith(s[r..], p)
    ensures forall j :: 0 <= j <= |s| && (r < 0 || j < r) ==> !StartsWith(s[j..], p)
    decreases |s|
  {
    if StartsWith(s, p) then 0
    else if |s| == 0 then -1
    else
      var r := IndexOf(s[1..], p);
      assert forall j :: 1 <= j <= |s| ==> s[j..] == s[1..][j - 1..];
      if r < 0 then -1 else r + 1
  }

  /** `s.contains(p)`, equivalently `s.indexOf(p) >= 0`. */
  predicate Contains(s: Str, p: Str) {
    IndexOf(s, p) >= 0
  }

  lemma {:induction false} ContainsInfix(a: Str, b: Str, c: Str)
    ensures Contains(a + b + c, b)
  {
    var s := a + b + c;
    assert s[|a|..][..|b|] == b;
    assert StartsWith(s[|a|..], b);
  }

  lemma {:induction false} ContainsWithin(s: Str, p: Str, big: Str)
    requires Contains(s, p) && Contains(big, s)
    ensures Contains(big, p)
  {
    var i := IndexOf(big, s);
    var j := IndexOf(s, p);
    assert big[i..][..|s|] == s;
    forall k | 0 <= k < |p|
      ensures big[i + j..][k] == p[k]
    {
      assert big[i + j + k] == big[i..][..|s|][j + k];
      assert p[k] == s[j..][..|p|][k];
    }
    assert big[i + j..][..|p|] == p;
  }

  function LowerChar(c: char): char {
    if 'A' <= c <= 'Z' then (c as int + 32) as char else c
  }

  /** `toLowerCase()` restricted to ASCII letters; every other character is kept. */
  function ToLower(s: Str): (r: Str)
    ensures |r| == |s|
    ensures forall i :: 0 <= i < |s| ==> r[i] == LowerChar(s[i])
  {
    seq(|s|, i requires 0 <= i < |s| => LowerChar(s[i]))
  }

  /** `a.equalsIgnoreCase(b)` on ASCII letters. */
  predicate EqualsIgnoreCase(a: Str, b: Str) {
    ToLower(a) == ToLower(b)
  }

  /** A string that `toLowerCase()` leaves as it is and that holds no separator. */
  predicate LowerWord(s: Str) {
    forall i :: 0 <= i < |s| ==> 'a' <= s[i] <= 'z'
  }

  function TrimStart(s: Str): Str {
    if |s| > 0 && s[0] <= ' ' then TrimStart(s[1..]) else s
  }

  function TrimEnd(s: Str): Str {
    if |s| > 0 && s[|s| - 1] <= ' ' then TrimEnd(s[..|s| - 1]) else s
  }

  /** `trim()`: drop every character up to U+0020 at both ends. */
  function Trim(s: Str): Str {
    TrimEnd(TrimStart(s))
  }

  /** Every piece between occurrences of `c`, empty ones included. */
  function Pieces(s: Str, c: char): (r: seq<Str>)
    ensures |r| >= 1
    decreases |s|
  {
    if |s| == 0 then [""]
    else
      var rest := Pieces(s[1..], c);
      if s[0] == c then [""] + rest else [[s[0]] + rest[0]] + rest[1..]
  }

  function DropTrailingEmpty(ps: seq<Str>): (r: seq<Str>)
    ensures |r| <= |ps| && r == ps[..|r|]
    ensures |r| > 0 ==> r[|r| - 1] != ""
    ensures forall i :: |r| <= i < |ps| ==> ps[i] == ""
  {
    if |ps| > 0 && ps[|ps| - 1] == "" then DropTrailingEmpty(ps[..|ps| - 1]) else ps
  }

  /**
   * `s.split(c)` in Java: the input itself when the separator does not occur,
   * otherwise the pieces with trailing empty strings removed.
   */
  function Split(s: Str, c: char): seq<Str> {
    if c !in s then [s] else DropTrailingEmpty(Pieces(s, c))
  }

  /** The pieces joined with `sep` between consecutive ones. */
  function Join(ss: seq<Str>, sep: Str): Str {
    if |ss| == 0 then ""
    else if |ss| == 1 then ss[0]
    else ss[0] + sep + Join(ss[1..], sep)
  }

  lemma {:induction false} JoinSnoc(ss: seq<Str>, t: Str, sep: Str)
    requires |ss| > 0
    ensures Join(ss + [t], sep) == Join(ss, sep) + sep + t
    decreases |ss|
  {
    if |ss| == 1 {
      assert ss + [t] == [ss[0], t];
      assert (ss + [t])[1..] == [t];
    } else {
      assert (ss + [t])[1..] == ss[1..] + [t];
      JoinSnoc(ss[1..], t, sep);
    }
  }

  lemma {:induction false} PiecesWithout(s: Str, c: char)
    requires c !in s
    ensures Pieces(s, c) == [s]
    decreases |s|
  {
    if |s| > 0 {
      PiecesWithout(s[1..], c);
      assert [s[0]] + s[1..] == s;
    }
  }

  lemma {:induction false} PiecesAfter(x: Str, y: Str, c: char)
    requires c !in x
    ensures Pieces(x + [c] + y, c) == [x] + Pieces(y, c)
    decreases |x|
  {
    var s := x + [c] + y;
    if |x| == 0 {
      assert s == [c] + y;
      assert s[1..] == y;
    } else {
      assert s[1..] == x[1..] + [c] + y;
      PiecesAfter(x[1..], y, c);
      assert [x[0]] + x[1..] == x;
    }
  }

  /** Joining separator-free pieces with `c` and splitting at `c` gives them back. */
  lemma {:induction false} PiecesOfJoin(segs: seq<Str>, c: char)
    requires |segs| > 0
    requires forall i :: 0 <= i < |segs| ==> c !in segs[i]
    ensures Pieces(Join(segs, [c]), c) == segs
    decreases |segs|
  {
    if |segs| == 1 {
      PiecesWithout(segs[0], c);
    } else {
      PiecesOfJoin(segs[1..], c);
      PiecesAfter(segs[0], Join(segs[1..], [c]), c);
      assert [segs[0]] + segs[1..] == segs;
    }
  }

  lemma {:induction false} JoinContains(segs: seq<Str>, c: char)
    requires |segs| > 1
    ensures c in Join(segs, [c])
  {
    var j := Join(segs, [c]);
    assert j == segs[0] + [c] + Join(segs[1..], [c]);
    assert j[|segs[0]|] == c;
  }

  /** Splitting a `c`-joined list whose last piece is non-empty recovers the list. */
  lemma SplitOfJoin(segs: seq<Str>, c: char)
    requires |segs| > 1
    requires forall i :: 0 <= i < |segs| ==> c !in segs[i]
    requires segs[|segs| - 1] != ""
    ensures Split(Join(segs, [c]), c) == segs
  {
    JoinContains(segs, c);
    PiecesOfJoin(segs, c);
  }
}
