/**
 * The few pieces of Python's `str` that the scraper relies on: `sub in s`,
 * `s.split(sep)`, `s.rstrip(c)`, counting a character, and the
 * "no repeated element" property of a list built from a set.
 */
module Strings {

  /** No element occurs twice. */
  predicate NoDuplicates<T(==)>(s: seq<T>) {
    forall i, j :: 0 <= i < j < |s| ==> s[i] != s[j]
  }

  /** Python's `sub in s`: `sub` occurs as a contiguous run of `s`. */
  predicate Contains(s: string, sub: string)
    decreases |s|
  {
    sub <= s || (|s| > 0 && Contains(s[1..], sub))
  }

  /** `sub` occurs in `s` starting at index `i`. */
  predicate OccursAt(s: string, sub: string, i: int) {
    0 <= i <= |s| - |sub| && s[i..i + |sub|] == sub
  }

  /** Where `sub` occurs at `i`, each of its characters is found in `s`. */
  lemma OccursAtChar(s: string, sub: string, i: int, k: int)
    requires OccursAt(s, sub, i) && 0 <= k < |sub|
    ensures s[i + k] == sub[k]
  {
    assert s[i..i + |sub|][k] == s[i + k];
  }

  /** `Contains` is the usual definition: `sub` occurs at some index of `s`. */
  lemma {:induction false} ContainsAt(s: string, sub: string)
    ensures Contains(s, sub) <==> exists i :: OccursAt(s, sub, i)
    decreases |s|
  {
    if |s| == 0 {
      if |sub| == 0 {
        assert OccursAt(s, sub, 0);
      }
    } else {
      ContainsAt(s[1..], sub);
      if Contains(s, sub) {
        if sub <= s {
          assert OccursAt(s, sub, 0);
        } else {
          var i :| OccursAt(s[1..], sub, i);
          assert s[1..][i..i + |sub|] == s[i + 1..i + 1 + |sub|];
          assert OccursAt(s, sub, i + 1);
        }
      }
      if exists i :: OccursAt(s, sub, i) {
        var i :| OccursAt(s, sub, i);
        if i > 0 {
          assert s[1..][i - 1..i - 1 + |sub|] == s[i..i + |sub|];
          assert OccursAt(s[1..], sub, i - 1);
        }
      }
    }
  }

  /** Python's `s.count(c)` for a one-character `c`. */
  function CountChar(s: string, c: char): (n: nat)
    ensures n <= |s|
    ensures n == 0 <==> c !in s
  {
    if |s| == 0 then 0
    else (if s[0] == c then 1 else 0) + CountChar(s[1..], c)
  }

  /** A string holding `sub` has at least two `c`s when `sub` has `c` at two indices. */
  lemma ContainsTwoAt(s: string, sub: string, c: char, a: nat, b: nat)
    requires Contains(s, sub) && a < b < |sub| && sub[a] == c && sub[b] == c
    ensures CountChar(s, c) >= 2
  {
    ContainsAt(s, sub);
    var i :| OccursAt(s, sub, i);
    OccursAtChar(s, sub, i, a);
    OccursAtChar(s, sub, i, b);
    CountTwoAt(s, c, i + a, i + b);
  }

  /** A character found at two different indices is counted at least twice. */
  lemma {:induction false} CountTwoAt(s: string, c: char, i: nat, j: nat)
    requires i < j < |s| && s[i] == c && s[j] == c
    ensures CountChar(s, c) >= 2
    decreases |s|
  {
    if i == 0 {
      assert s[1..][j - 1] == c;
    } else {
      assert s[1..][i - 1] == c && s[1..][j - 1] == c;
      CountTwoAt(s[1..], c, i - 1, j - 1);
    }
  }

  /**
   * Python's `s.split(sep)` for a one-character separator: the maximal runs
   * between separators, including the empty runs before a leading, after a
   * trailing and between two adjacent separators. Never empty: `"".split(sep)`
   * is `[""]`.
   */
  function Split(s: string, sep: char): (parts: seq<string>)
    ensures |parts| >= 1
  {
    if |s| == 0 then [""]
    else
      var rest := Split(s[1..], sep);
      if s[0] == sep then [""] + rest
      else [[s[0]] + rest[0]] + rest[1..]
  }

  /** Python's `sep.join(parts)`, the inverse of `Split`. */
  function Join(parts: seq<string>, sep: char): (s: string)
    requires |parts| >= 1
    ensures parts[0] <= s
  {
    if |parts| == 1 then parts[0]
    else parts[0] + [sep] + Join(parts[1..], sep)
  }

  /** Splitting on `sep` yields one more part than there are `sep`s. */
  lemma {:induction false} SplitLength(s: string, sep: char)
    ensures |Split(s, sep)| == CountChar(s, sep) + 1
  {
    if |s| > 0 {
      SplitLength(s[1..], sep);
    }
  }

  /** No part of a split holds the separator. */
  lemma {:induction false} SplitPartsAreFree(s: string, sep: char)
    ensures forall p :: p in Split(s, sep) ==> sep !in p
  {
    if |s| > 0 {
      SplitPartsAreFree(s[1..], sep);
      var rest := Split(s[1..], sep);
      assert rest[0] in rest;
      if s[0] != sep {
        forall p | p in Split(s, sep)
          ensures sep !in p
        {
          if p != [s[0]] + rest[0] {
            assert p in rest[1..];
          }
        }
      }
    }
  }

  /** The first part runs from the start up to the first separator (or the end). */
  lemma {:induction false} SplitFirst(s: string, sep: char)
    ensures var first := Split(s, sep)[0];
      first <= s && sep !in first && (|first| == |s| || s[|first|] == sep)
  {
    if |s| > 0 && s[0] != sep {
      SplitFirst(s[1..], sep);
    }
  }

  /** Joining the parts back with the separator gives the original string. */
  lemma {:induction false} JoinSplit(s: string, sep: char)
    ensures Join(Split(s, sep), sep) == s
  {
    if |s| > 0 {
      JoinSplit(s[1..], sep);
      var rest := Split(s[1..], sep);
      if s[0] != sep && |rest| > 1 {
        assert Split(s, sep)[1..] == rest[1..];
      }
    }
  }

  /**
   * The last part is the suffix after the last separator: the whole string
   * when there is none, and otherwise preceded by the separator.
   */
  lemma {:induction false} SplitLast(s: string, sep: char)
    ensures var parts := Split(s, sep); var last := parts[|parts| - 1];
      |last| <= |s| && s[|s| - |last|..] == last && (|last| == |s| || s[|s| - |last| - 1] == sep)
    decreases |s|, 0
  {
    if |s| > 0 {
      var rest := Split(s[1..], sep);
      if s[0] != sep && |rest| == 1 {
        SplitWhole(s, sep);
      } else {
        SplitLast(s[1..], sep);
        SplitLastOfTail(s, sep);
        var last := rest[|rest| - 1];
        assert s[1..][|s[1..]| - |last|..] == s[|s| - |last|..];
        if s[0] != sep {
          SplitLastShort(s[1..], sep);
        }
      }
    }
  }

  /** When a string splits into several parts, the last part is shorter than the string. */
  lemma SplitLastShort(s: string, sep: char)
    requires |Split(s, sep)| > 1
    ensures var parts := Split(s, sep); |parts[|parts| - 1]| < |s|
    decreases |s|, 1
  {
    var parts := Split(s, sep);
    var last := parts[|parts| - 1];
    SplitLength(s, sep);
    SplitPartsAreFree(s, sep);
    SplitLast(s, sep);
    assert last in parts;
    assert sep in s && sep !in last;
    assert last != s;
  }

  /** A string whose tail splits into one part and which starts with no separator is a single part. */
  lemma SplitWhole(s: string, sep: char)
    requires |s| > 0 && s[0] != sep && |Split(s[1..], sep)| == 1
    ensures Split(s, sep) == [s]
  {
    JoinSplit(s[1..], sep);
    assert [s[0]] + s[1..] == s;
  }

  /** Otherwise the last part of a split is the last part of the tail's split. */
  lemma SplitLastOfTail(s: string, sep: char)
    requires |s| > 0 && (s[0] == sep || |Split(s[1..], sep)| > 1)
    ensures var parts, rest := Split(s, sep), Split(s[1..], sep);
      parts[|parts| - 1] == rest[|rest| - 1]
  {
  }

  /**
   * Python's `s.rstrip(c)` for a one-character `c`: the longest prefix of `s`
   * that does not end with `c` and after which only `c`s follow.
   */
  function RStrip(s: string, c: char): (r: string)
    ensures r <= s
    ensures |r| == 0 || r[|r| - 1] != c
    ensures forall i :: |r| <= i < |s| ==> s[i] == c
  {
    if |s| > 0 && s[|s| - 1] == c then RStrip(s[..|s| - 1], c) else s
  }
}
