/** The few operations on Python `str` values that the two core files rely on:
    prefix tests, substring search, `str.lower`, `str.rfind` and `str.replace`. */
module Strings {

  /** `s.startswith(t)` */
  predicate StartsWith(s: string, t: string)
  {
    |t| <= |s| && s[..|t|] == t
  }

  /** `t in s`: `t` occurs in `s` at some position. */
  predicate Contains(s: string, t: string)
  {
    exists i | 0 <= i <= |s| :: StartsWith(s[i..], t)
  }

  /** An occurrence is either at the front or somewhere in the tail. */
  lemma ContainsUnfold(s: string, t: string)
    ensures Contains(s, t) <==> StartsWith(s, t) || (s != [] && Contains(s[1..], t))
  {
    if Contains(s, t) {
      var i :| 0 <= i <= |s| && StartsWith(s[i..], t);
      if i > 0 {
        assert s[1..][i - 1..] == s[i..];
      }
    }
    if StartsWith(s, t) {
      assert s[0..] == s;
    }
    if s != [] && Contains(s[1..], t) {
      var i :| 0 <= i <= |s| - 1 && StartsWith(s[1..][i..], t);
      assert s[1..][i..] == s[i + 1..];
    }
  }

  /** `str.lower` on one character; only the ASCII letters have a case here. */
  function LowerChar(c: char): char
  {
    if 'A' <= c <= 'Z' then (c as int + 32) as char else c
  }

  /** `str.lower` */
  function Lower(s: string): (r: string)
    ensures |r| == |s|
  {
    if s == [] then [] else [LowerChar(s[0])] + Lower(s[1..])
  }

  lemma {:induction false} LowerAt(s: string, k: nat)
    requires k < |s|
    ensures Lower(s)[k] == LowerChar(s[k])
  {
    if k > 0 {
      LowerAt(s[1..], k - 1);
    }
  }

  /** Lowering leaves a string without upper-case letters unchanged. */
  lemma {:induction false} LowerOfLowercase(s: string)
    requires forall k | 0 <= k < |s| :: !('A' <= s[k] <= 'Z')
    ensures Lower(s) == s
  {
    if s != [] {
      forall k | 0 <= k < |s[1..]| ensures !('A' <= s[1..][k] <= 'Z') {
        assert s[1..][k] == s[k + 1];
      }
      LowerOfLowercase(s[1..]);
    }
  }

  /** `s.rfind(c)`: the index of the last `c` in `s`, or -1 when there is none. */
  function RFind(s: string, c: char): (r: int)
    ensures -1 <= r < |s|
    ensures r >= 0 ==> s[r] == c
    ensures forall k | r < k < |s| :: s[k] != c
  {
    if s == [] then -1
    else if s[|s| - 1] == c then |s| - 1
    else RFind(s[..|s| - 1], c)
  }

  /** The contract of RFind determines its value. */
  lemma RFindIs(s: string, c: char, d: int)
    requires -1 <= d < |s|
    requires d >= 0 ==> s[d] == c
    requires forall k | d < k < |s| :: s[k] != c
    ensures RFind(s, c) == d
  {
  }

  /** `s.replace(needle, replacement)`: every occurrence of a non-empty needle,
      scanning from the left and never overlapping, is replaced; an empty needle
      occurs before every character and at the end. */
  function Replace(s: string, needle: string, replacement: string): string
    decreases |s|
  {
    if needle == [] then
      if s == [] then replacement else replacement + [s[0]] + Replace(s[1..], needle, replacement)
    else if |s| < |needle| then s
    else if StartsWith(s, needle) then replacement + Replace(s[|needle|..], needle, replacement)
    else [s[0]] + Replace(s[1..], needle, replacement)
  }

  /** Without an occurrence of the needle, `replace` returns its argument unchanged. */
  lemma {:induction false} ReplaceAbsent(s: string, needle: string, replacement: string)
    requires needle != []
    requires !Contains(s, needle)
    ensures Replace(s, needle, replacement) == s
    decreases |s|
  {
    ContainsUnfold(s, needle);
    if |s| >= |needle| {
      ReplaceAbsent(s[1..], needle, replacement);
      assert [s[0]] + s[1..] == s;
    }
  }

  /** When no occurrence of `needle` in `stem + needle` starts inside `stem`,
      `replace` swaps just the ending. */
  lemma {:induction false} ReplaceOnlyEnding(stem: string, needle: string, replacement: string)
    requires needle != []
    requires forall i | 0 <= i < |stem| :: !StartsWith((stem + needle)[i..], needle)
    ensures Replace(stem + needle, needle, replacement) == stem + replacement
  {
    var s := stem + needle;
    if stem == [] {
      assert s == needle && s[..|needle|] == needle && s[|needle|..] == [];
    } else {
      assert !StartsWith(s[0..], needle);
      assert s[0..] == s;
      var tail := stem[1..] + needle;
      assert s[1..] == tail;
      forall i | 0 <= i < |stem[1..]| ensures !StartsWith(tail[i..], needle) {
        assert tail[i..] == s[i + 1..];
      }
      ReplaceOnlyEnding(stem[1..], needle, replacement);
      ReplaceSkip(s, needle, replacement);
      assert s[0] == stem[0];
      ConsAssoc(stem, replacement);
    }
  }

  /** Where the needle does not start, `replace` keeps the first character. */
  lemma ReplaceSkip(s: string, needle: string, replacement: string)
    requires needle != [] && |s| >= |needle| && !StartsWith(s, needle)
    ensures Replace(s, needle, replacement) == [s[0]] + Replace(s[1..], needle, replacement)
  {
  }

  lemma ConsAssoc(x: string, z: string)
    requires x != []
    ensures [x[0]] + (x[1..] + z) == x + z
  {
    assert x == [x[0]] + x[1..];
  }

  /** A prefix in which the needle's first character never occurs is copied
      unchanged by `replace`. */
  lemma {:induction false} ReplaceAfterPrefix(x: string, y: string, needle: string, replacement: string)
    requires needle != [] && needle[0] !in x
    ensures Replace(x + y, needle, replacement) == x + Replace(y, needle, replacement)
    decreases |x|
  {
    if x == [] {
      assert x + y == y;
    } else if |x + y| >= |needle| {
      var s := x + y;
      assert s[..|needle|][0] == x[0] != needle[0];
      ReplaceSkip(s, needle, replacement);
      assert s[1..] == x[1..] + y;
      ReplaceAfterPrefix(x[1..], y, needle, replacement);
      ConsAssoc(x, Replace(y, needle, replacement));
    }
  }

  /** An occurrence at the start is replaced, and `replace` goes on after it. */
  lemma ReplaceAtStart(y: string, needle: string, replacement: string)
    requires needle != []
    ensures Replace(needle + y, needle, replacement) == replacement + Replace(y, needle, replacement)
  {
    var s := needle + y;
    assert s[..|needle|] == needle;
    assert s[|needle|..] == y;
  }

  lemma Regroup(a: string, b: string, c: string, d: string)
    ensures a + b + (c + d) + b == a + b + c + d + b
  {
  }

  /** Two occurrences separated by text in which the needle cannot start are both replaced. */
  lemma ReplaceTwice(x: string, y: string, needle: string, replacement: string)
    requires needle != [] && needle[0] !in x && needle[0] !in y
    ensures Replace(x + needle + y + needle, needle, replacement) == x + replacement + y + replacement
  {
    assert x + needle + y + needle == x + (needle + (y + (needle + [])));
    ReplaceAfterPrefix(x, needle + (y + (needle + [])), needle, replacement);
    ReplaceAtStart(y + (needle + []), needle, replacement);
    ReplaceAfterPrefix(y, needle + [], needle, replacement);
    ReplaceAtStart([], needle, replacement);
    assert x + (replacement + (y + (replacement + []))) == x + replacement + y + replacement;
  }

  /** The same, stated with substring search: when `needle` occurs in `stem + needle`
      only as its ending, `replace` swaps just that ending. */
  lemma ReplaceEnding(stem: string, needle: string, replacement: string)
    requires needle != []
    requires !Contains((stem + needle)[..|stem + needle| - 1], needle)
    ensures Replace(stem + needle, needle, replacement) == stem + replacement
  {
    var s := stem + needle;
    var t := s[..|s| - 1];
    forall i | 0 <= i < |stem| ensures !StartsWith(s[i..], needle) {
      if StartsWith(s[i..], needle) {
        assert t[i..][..|needle|] == s[i..][..|needle|];
        assert StartsWith(t[i..], needle);
      }
    }
    ReplaceOnlyEnding(stem, needle, replacement);
  }
}
