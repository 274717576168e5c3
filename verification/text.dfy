/**
 * The string operations the event normaliser relies on: Python's
 * `str.split(sep)` with a single-character separator, the segment after the
 * last separator, the truthiness-based `or`, and decimal formatting of
 * integers as an f-string prints them.
 */
module Text {

  /** Python `a or b` on two strings: the first unless it is empty (falsy). */
  function Or(a: string, b: string): (r: string)
    ensures r == a || r == b
    ensures r != "" <==> (a != "" || b != "")
    ensures a != "" ==> r == a
  {
    if a != "" then a else b
  }

  /**
   * Python `s.split(sep)` for a one-character separator, scanning from the
   * front: every occurrence of `sep` ends one part, so an empty string gives
   * `[""]` and a trailing separator gives a trailing empty part.
   */
  function Split(s: string, sep: char): (parts: seq<string>)
    ensures |parts| >= 1
    ensures forall i :: 0 <= i < |parts| ==> sep !in parts[i]
    ensures |parts| == 1 <==> sep !in s
    ensures sep !in s ==> parts == [s]
  {
    if |s| == 0 then [""]
    else
      var rest := Split(s[1..], sep);
      if s[0] == sep then [""] + rest
      else
        assert [s[0]] + s[1..] == s;
        [[s[0]] + rest[0]] + rest[1..]
  }

  /** The inverse of `Split`: the parts glued together with `sep`. */
  function Join(parts: seq<string>, sep: char): (s: string)
    requires |parts| >= 1
    decreases |parts|
  {
    if |parts| == 1 then parts[0] else parts[0] + [sep] + Join(parts[1..], sep)
  }

  /** The last element of a non-empty list of parts (Python's `parts[-1]`). */
  function LastOf(parts: seq<string>): string
    requires |parts| >= 1
  {
    parts[|parts| - 1]
  }

  /**
   * Python `s.split(sep)[-1]`: the text after the last `sep`, or all of `s`
   * when `sep` does not occur.
   */
  function LastPart(s: string, sep: char): (r: string)
    ensures r == LastSegment(s, sep)
  {
    SplitLastIsLastSegment(s, sep);
    LastOf(Split(s, sep))
  }

  /**
   * The text after the last `sep` in `s`, or all of `s` when `sep` does not
   * occur, computed by scanning back from the end. The three ensures
   * determine the result uniquely (see `LastSegmentUnique`).
   */
  function LastSegment(s: string, sep: char): (r: string)
    ensures |r| <= |s| && r == s[|s| - |r|..]
    ensures sep !in r
    ensures |r| < |s| ==> s[|s| - |r| - 1] == sep
  {
    if |s| == 0 then ""
    else if s[|s| - 1] == sep then ""
    else
      var front := LastSegment(s[..|s| - 1], sep);
      LastSegmentSnoc(s, sep, front);
      front + [s[|s| - 1]]
  }

  /** A segment of all but the last character, extended by that character, is a segment of the whole. */
  lemma LastSegmentSnoc(s: string, sep: char, front: string)
    requires |s| > 0 && s[|s| - 1] != sep
    requires |front| <= |s| - 1 && front == s[..|s| - 1][|s| - 1 - |front|..]
    requires sep !in front
    requires |front| < |s| - 1 ==> s[..|s| - 1][|s| - 1 - |front| - 1] == sep
    ensures var r := front + [s[|s| - 1]];
      && |r| <= |s| && r == s[|s| - |r|..]
      && sep !in r
      && (|r| < |s| ==> s[|s| - |r| - 1] == sep)
  {
    var r := front + [s[|s| - 1]];
    assert s[..|s| - 1][|s| - 1 - |front|..] + [s[|s| - 1]] == s[|s| - 1 - |front|..];
    assert forall i :: 0 <= i < |r| ==> r[i] == (if i < |front| then front[i] else s[|s| - 1]);
  }

  /** Any suffix with the three properties of `LastSegment` is `LastSegment`. */
  lemma LastSegmentUnique(s: string, sep: char, t: string)
    requires |t| <= |s| && t == s[|s| - |t|..]
    requires sep !in t
    requires |t| < |s| ==> s[|s| - |t| - 1] == sep
    ensures t == LastSegment(s, sep)
  {
  }

  /** One step of `Split`: the first character either ends an empty part or opens the first part. */
  lemma SplitCons(s: string, sep: char)
    requires |s| > 0
    ensures Split(s, sep) ==
      if s[0] == sep then [""] + Split(s[1..], sep)
      else [[s[0]] + Split(s[1..], sep)[0]] + Split(s[1..], sep)[1..]
  {
  }

  /** A part put in front does not change the last part. */
  lemma LastOfPrepend(parts: seq<string>, x: string, rest: seq<string>)
    requires |rest| >= 1 && parts == [x] + rest
    ensures LastOf(parts) == LastOf(rest)
  {
    assert parts[|parts| - 1] == rest[|rest| - 1];
  }

  /** Growing the first of several parts does not change the last part. */
  lemma LastOfGrowFirst(parts: seq<string>, c: char, rest: seq<string>)
    requires |rest| > 1 && parts == [[c] + rest[0]] + rest[1..]
    ensures LastOf(parts) == LastOf(rest)
  {
    assert parts[|parts| - 1] == rest[1..][|rest| - 2];
  }

  /** With a separator after the first character, the last part lies in the tail. */
  lemma LastOfSplitLater(s: string, sep: char)
    requires |s| > 0 && sep in s[1..]
    ensures LastOf(Split(s, sep)) == LastOf(Split(s[1..], sep))
  {
    SplitCons(s, sep);
    if s[0] == sep {
      LastOfPrepend(Split(s, sep), "", Split(s[1..], sep));
    } else {
      LastOfGrowFirst(Split(s, sep), s[0], Split(s[1..], sep));
    }
  }

  /** Without a separator after the first character, the last part is the tail or the whole. */
  lemma LastOfSplitFirst(s: string, sep: char)
    requires |s| > 0 && sep !in s[1..]
    ensures LastOf(Split(s, sep)) == if s[0] == sep then s[1..] else s
  {
    var t := s[1..];
    SplitCons(s, sep);
    assert Split(t, sep) == [t];
    if s[0] != sep {
      assert [s[0]] + t == s;
    }
  }

  /** With a separator after the first character, the last segment lies in the tail. */
  lemma LastSegmentLater(s: string, sep: char)
    requires |s| > 0 && sep in s[1..]
    ensures LastSegment(s, sep) == LastSegment(s[1..], sep)
  {
    var t := s[1..];
    var r := LastSegment(t, sep);
    assert |r| < |t|;
    assert s[|s| - |r| - 1] == t[|t| - |r| - 1];
    assert s[|s| - |r|..] == t[|t| - |r|..];
    LastSegmentUnique(s, sep, r);
  }

  /** Without a separator after the first character, the last segment is the tail or the whole. */
  lemma LastSegmentFirst(s: string, sep: char)
    requires |s| > 0 && sep !in s[1..]
    ensures LastSegment(s, sep) == if s[0] == sep then s[1..] else s
  {
    var t := s[1..];
    if s[0] == sep {
      assert s[|s| - |t|..] == t;
      LastSegmentUnique(s, sep, t);
    } else {
      assert sep !in s by {
        assert forall i :: 1 <= i < |s| ==> s[i] == t[i - 1];
      }
      LastSegmentUnique(s, sep, s);
    }
  }

  /** Splitting then taking the last part is the segment after the last separator. */
  lemma {:induction false} SplitLastIsLastSegment(s: string, sep: char)
    ensures LastOf(Split(s, sep)) == LastSegment(s, sep)
    decreases |s|
  {
    if |s| == 0 {
      SplitLastEmpty(s, sep);
    } else if sep in s[1..] {
      SplitLastIsLastSegment(s[1..], sep);
      SplitLastLater(s, sep);
    } else {
      SplitLastFirst(s, sep);
    }
  }

  /** The empty string splits into one empty part, which is its last segment. */
  lemma SplitLastEmpty(s: string, sep: char)
    requires |s| == 0
    ensures LastOf(Split(s, sep)) == LastSegment(s, sep)
  {
  }

  /** The step of the induction: a separator after the first character keeps both sides in the tail. */
  lemma SplitLastLater(s: string, sep: char)
    requires |s| > 0 && sep in s[1..]
    requires LastOf(Split(s[1..], sep)) == LastSegment(s[1..], sep)
    ensures LastOf(Split(s, sep)) == LastSegment(s, sep)
  {
    LastOfSplitLater(s, sep);
    LastSegmentLater(s, sep);
  }

  /** Without a separator after the first character both sides are the tail or the whole. */
  lemma SplitLastFirst(s: string, sep: char)
    requires |s| > 0 && sep !in s[1..]
    ensures LastOf(Split(s, sep)) == LastSegment(s, sep)
  {
    LastOfSplitFirst(s, sep);
    LastSegmentFirst(s, sep);
  }

  /** A string ending in `sep` + `b`, with no `sep` in `b`, has last segment `b`. */
  lemma LastSegmentAfter(a: string, sep: char, b: string)
    requires sep !in b
    ensures LastSegment(a + [sep] + b, sep) == b
  {
    var s := a + [sep] + b;
    assert s[|s| - |b|..] == b;
    LastSegmentUnique(s, sep, b);
  }

  /** `Join` undoes `Split`: splitting loses nothing. */
  lemma {:induction false} JoinSplit(s: string, sep: char)
    ensures Join(Split(s, sep), sep) == s
    decreases |s|
  {
    if |s| > 0 {
      JoinSplit(s[1..], sep);
      SplitCons(s, sep);
      if s[0] == sep {
        JoinEmptyFirst(Split(s[1..], sep), sep);
      } else {
        JoinGrowFirst(Split(s[1..], sep), s[0], sep);
      }
      assert [s[0]] + s[1..] == s;
    }
  }

  /** An empty first part contributes only its separator. */
  lemma JoinEmptyFirst(rest: seq<string>, sep: char)
    requires |rest| >= 1
    ensures Join([""] + rest, sep) == [sep] + Join(rest, sep)
  {
    assert ([""] + rest)[1..] == rest;
  }

  /** A character put in front of the first part goes in front of the joined text. */
  lemma JoinGrowFirst(rest: seq<string>, c: char, sep: char)
    requires |rest| >= 1
    ensures Join([[c] + rest[0]] + rest[1..], sep) == [c] + Join(rest, sep)
  {
  }

  predicate IsDigit(c: char) {
    '0' <= c <= '9'
  }

  predicate AllDigits(s: string) {
    forall i :: 0 <= i < |s| ==> IsDigit(s[i])
  }

  /** The decimal digits of `n`, most significant first, without leading zeros. */
  function NatToString(n: nat): (s: string)
    ensures |s| >= 1 && AllDigits(s)
    ensures '-' !in s
    ensures |s| > 1 ==> s[0] != '0'
  {
    var d := [(n % 10) as char + '0'];
    if n < 10 then d else NatToString(n / 10) + d
  }

  /** Python `f"{n}"` for an int: a minus sign before the digits when negative. */
  function IntToString(n: int): (s: string)
    ensures |s| >= 1
    ensures n < 0 <==> s[0] == '-'
    ensures AllDigits(if n < 0 then s[1..] else s)
    ensures ParseNat(if n < 0 then s[1..] else s) == if n < 0 then -n else n
    ensures n >= 0 && |s| > 1 ==> s[0] != '0'
    ensures n < 0 && |s| > 2 ==> s[1] != '0'
  {
    if n >= 0 then
      ParseNatToString(n);
      NatToString(n)
    else
      var s := "-" + NatToString(-n);
      ParseNatToString(-n);
      assert s[1..] == NatToString(-n);
      s
  }

  /** The value of a string of decimal digits. */
  function ParseNat(s: string): (n: nat)
    requires AllDigits(s)
  {
    if |s| == 0 then 0
    else ParseNat(s[..|s| - 1]) * 10 + (s[|s| - 1] - '0') as nat
  }

  /** Reading back the decimal text of `n` gives `n`. */
  lemma {:induction false} ParseNatToString(n: nat)
    ensures ParseNat(NatToString(n)) == n
  {
    var s := NatToString(n);
    if n >= 10 {
      var front := NatToString(n / 10);
      assert s[..|s| - 1] == front;
      ParseNatToString(n / 10);
    }
  }
}
