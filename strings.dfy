/**
 * The few Python `str` operations the application relies on, stated on
 * `seq<char>`: `find`, `in`, `rfind`, `split`, `join`, `rsplit(sep, 1)` and
 * `lower`.
 */
module Strings {

  /** `pat` occurs in `s` starting at index `i`. */
  predicate OccursAt(s: string, pat: string, i: nat) {
    i + |pat| <= |s| && s[i..i + |pat|] == pat
  }

  /** `pat` occurs nowhere in `s`. */
  ghost predicate Absent(s: string, pat: string) {
    forall i: nat :: !OccursAt(s, pat, i)
  }

  /** A one-character pattern occurs exactly where that character stands. */
  lemma OccursAtChar(s: string, c: char, i: nat)
    ensures OccursAt(s, [c], i) <==> i < |s| && s[i] == c
  {
    if i < |s| {
      assert s[i..i + 1] == [s[i]];
    }
  }

  /** Python's `s.find(pat, start)`: the lowest index at or after `start`
      where `pat` occurs, or -1 when there is none. */
  function Find(s: string, pat: string, start: nat): (r: int)
    decreases |s| - start
    ensures r == -1 <==> forall i: nat :: start <= i ==> !OccursAt(s, pat, i)
    ensures r != -1 ==> start <= r && OccursAt(s, pat, r)
    ensures r != -1 ==> forall i: nat :: start <= i < r ==> !OccursAt(s, pat, i)
  {
    if start + |pat| > |s| then -1
    else if s[start..start + |pat|] == pat then
      assert OccursAt(s, pat, start);
      start
    else Find(s, pat, start + 1)
  }

  /** `Find` with a one-character pattern, read character by character. */
  lemma FindChar(s: string, c: char, start: nat)
    ensures Find(s, [c], start) == -1 <==> forall i :: start <= i < |s| ==> s[i] != c
    ensures Find(s, [c], start) != -1 ==>
              start <= Find(s, [c], start) < |s| && s[Find(s, [c], start)] == c
    ensures Find(s, [c], start) != -1 ==>
              forall i :: start <= i < Find(s, [c], start) ==> s[i] != c
  {
    forall i: nat {
      OccursAtChar(s, c, i);
    }
  }

  /** Python's `q in s` on strings: substring containment. */
  function Contains(s: string, q: string): (b: bool)
    ensures b <==> exists i: nat :: OccursAt(s, q, i)
  {
    Find(s, q, 0) != -1
  }

  /** Python's `s.rfind(c)`: the highest index holding `c`, or -1. */
  function RFind(s: string, c: char): (r: int)
    ensures r == -1 <==> c !in s
    ensures r != -1 ==> 0 <= r < |s| && s[r] == c && c !in s[r + 1..]
  {
    if s == [] then -1
    else if s[|s| - 1] == c then |s| - 1
    else
      assert s == s[..|s| - 1] + [s[|s| - 1]];
      var r := RFind(s[..|s| - 1], c);
      assert r != -1 ==> s[r + 1..] == s[..|s| - 1][r + 1..] + [s[|s| - 1]];
      r
  }

  /** `t` is the text of `s` after its last `c`, or all of `s` when `s` has no `c`. */
  predicate IsTextAfterLast(s: string, c: char, t: string) {
    && c !in t
    && |t| <= |s|
    && s[|s| - |t|..] == t
    && (|t| == |s| || s[|s| - |t| - 1] == c)
  }

  /** There is only one text after the last `c`. */
  lemma TextAfterLastUnique(s: string, c: char, t1: string, t2: string)
    requires IsTextAfterLast(s, c, t1) && IsTextAfterLast(s, c, t2)
    ensures t1 == t2
  {
  }

  /** What follows a final `c` is the text after the last `c`. */
  lemma TextAfterLastOfAppend(p: string, c: char, t: string)
    requires c !in t
    ensures IsTextAfterLast(p + [c] + t, c, t)
  {
    var s := p + [c] + t;
    assert s[|s| - |t|..] == t;
  }

  /** Python's `sep.join(parts)`. */
  function Join(parts: seq<string>, sep: char): string {
    if parts == [] then []
    else if |parts| == 1 then parts[0]
    else parts[0] + [sep] + Join(parts[1..], sep)
  }

  /** Joining pieces in front of at least one more puts a separator after the first. */
  lemma JoinCons(first: string, rest: seq<string>, sep: char)
    requires |rest| >= 1
    ensures Join([first] + rest, sep) == first + [sep] + Join(rest, sep)
  {
    var parts := [first] + rest;
    assert parts[0] == first && parts[1..] == rest;
  }

  /** Python's `s.split(sep)` for a one-character separator: the pieces
      between the separators, none of which holds one; a single piece
      exactly when the separator does not occur. */
  function Split(s: string, sep: char): (parts: seq<string>)
    ensures |parts| >= 1
    ensures forall k :: 0 <= k < |parts| ==> sep !in parts[k]
    ensures |parts| == 1 <==> sep !in s
  {
    if s == [] then [[]]
    else
      var rest := Split(s[1..], sep);
      assert s == [s[0]] + s[1..];
      if s[0] == sep then [[]] + rest
      else [[s[0]] + rest[0]] + rest[1..]
  }

  /** Putting a character in front of the first piece puts it in front of
      the joined string. */
  lemma JoinPrependToFirst(c: char, parts: seq<string>, sep: char)
    requires |parts| >= 1
    ensures Join([[c] + parts[0]] + parts[1..], sep) == [c] + Join(parts, sep)
  {
    var grown := [[c] + parts[0]] + parts[1..];
    assert grown[0] == [c] + parts[0] && grown[1..] == parts[1..];
  }

  /** Round trip: joining the pieces of a split with the separator gives back
      the string. */
  lemma {:induction false} JoinSplit(s: string, sep: char)
    ensures Join(Split(s, sep), sep) == s
  {
    if s != [] {
      var rest := Split(s[1..], sep);
      JoinSplit(s[1..], sep);
      assert s == [s[0]] + s[1..];
      if s[0] == sep {
        JoinCons([], rest, sep);
      } else {
        JoinPrependToFirst(s[0], rest, sep);
      }
    }
  }

  /** The text after the last `c` of `s[1..]` is that of `s` too, unless
      it is all of `s[1..]` and `s[0]` is not a `c`. */
  lemma TextAfterLastExtend(s: string, c: char, t: string)
    requires |s| >= 1 && IsTextAfterLast(s[1..], c, t)
    requires s[0] == c || |t| < |s| - 1
    ensures IsTextAfterLast(s, c, t)
  {
    var rest := s[1..];
    assert s[|s| - |t|..] == rest[|rest| - |t|..];
    if |t| < |rest| {
      assert s[|s| - |t| - 1] == rest[|rest| - |t| - 1];
    }
  }

  /** The last piece of `Split` is the text after the last separator. */
  lemma {:induction false} SplitLast(s: string, sep: char)
    ensures IsTextAfterLast(s, sep, Split(s, sep)[|Split(s, sep)| - 1])
  {
    if s != [] {
      var rest := Split(s[1..], sep);
      var t := rest[|rest| - 1];
      SplitLast(s[1..], sep);
      if s[0] == sep {
        TextAfterLastExtend(s, sep, t);
      } else if |rest| == 1 {
        JoinSplit(s[1..], sep);
        assert s == [s[0]] + s[1..];
      } else {
        assert sep in s[1..];
        assert |t| < |s| - 1;
        TextAfterLastExtend(s, sep, t);
      }
    }
  }

  /** Python's `s.rsplit(sep, 1)`: `[s]` when `sep` does not occur, otherwise
      the text before and the text after the last `sep`. */
  function RSplitOnce(s: string, sep: char): (parts: seq<string>)
    ensures |parts| == 1 || |parts| == 2
    ensures |parts| == 1 <==> sep !in s
    ensures |parts| == 1 ==> parts[0] == s
    ensures |parts| == 2 ==> parts[0] + [sep] + parts[1] == s
    ensures |parts| == 2 ==> IsTextAfterLast(s, sep, parts[1])
  {
    var k := RFind(s, sep);
    if k == -1 then [s]
    else
      assert s == s[..k] + [sep] + s[k + 1..];
      [s[..k], s[k + 1..]]
  }

  /** Python's `str.lower` on one character, restricted to ASCII letters. */
  function LowerChar(c: char): char {
    if 'A' <= c <= 'Z' then (c as int + 32) as char else c
  }

  /** Python's `s.lower()`, restricted to ASCII letters: no capital is
      left, each capital becomes its small letter (32 code points further)
      and every other character stays where it was. */
  function Lower(s: string): (r: string)
    ensures |r| == |s|
    ensures forall i :: 0 <= i < |r| ==> !('A' <= r[i] <= 'Z')
    ensures forall i :: 0 <= i < |s| && 'A' <= s[i] <= 'Z' ==> r[i] as int == s[i] as int + 32
    ensures forall i :: 0 <= i < |s| && !('A' <= s[i] <= 'Z') ==> r[i] == s[i]
  {
    seq(|s|, i requires 0 <= i < |s| => LowerChar(s[i]))
  }

  /** Lowering never creates nor removes a `.`, so the text after the last
      `.` of the lowered string is the lowered text after the last `.`. */
  lemma LowerKeepsTextAfterLastDot(s: string, t: string)
    requires IsTextAfterLast(s, '.', t)
    ensures IsTextAfterLast(Lower(s), '.', Lower(t))
  {
  }

  /** Lowering twice is lowering once. */
  lemma LowerIdempotent(s: string)
    ensures Lower(Lower(s)) == Lower(s)
  {
  }
}
