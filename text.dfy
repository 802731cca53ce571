/**
 * The slice of Python's `str` API that the rule translator relies on:
 * `strip`, `count`, `replace`, `split`, `join`, `in` and `startswith`,
 * each written out with Python's semantics over `seq<char>`.
 */
module Text {

  /** Python's `str.isspace()` for a single code point. */
  predicate IsSpace(c: char) {
    var n := c as int;
    (9 <= n <= 13) || (28 <= n <= 32) || n == 0x85 || n == 0xA0 || n == 0x1680
    || (0x2000 <= n <= 0x200A) || n == 0x2028 || n == 0x2029 || n == 0x202F
    || n == 0x205F || n == 0x3000
  }

  /** True when every character of `s` is whitespace (so `s.strip()` is empty). */
  predicate AllSpace(s: string) {
    forall i :: 0 <= i < |s| ==> IsSpace(s[i])
  }

  /** How many whitespace characters `s` starts with: what `s.lstrip()` drops. */
  function LeadingSpaces(s: string): (k: nat)
    ensures k <= |s| && AllSpace(s[..k])
    ensures k == |s| || !IsSpace(s[k])
    decreases |s|
  {
    if s != [] && IsSpace(s[0]) then
      var k := LeadingSpaces(s[1..]);
      assert s[..k + 1] == [s[0]] + s[1..][..k];
      k + 1
    else 0
  }

  /** How many whitespace characters `s` ends with: what `s.rstrip()` drops. */
  function TrailingSpaces(s: string): (j: nat)
    ensures j <= |s| && AllSpace(s[|s| - j..])
    ensures j == |s| || !IsSpace(s[|s| - j - 1])
    decreases |s|
  {
    if s != [] && IsSpace(s[|s| - 1]) then
      var j := TrailingSpaces(s[..|s| - 1]);
      assert s[|s| - (j + 1)..] == s[..|s| - 1][|s| - 1 - j..] + [s[|s| - 1]];
      j + 1
    else 0
  }

  /**
   * `s.strip()`: the part of `s` after its leading whitespace and before
   * its trailing whitespace.
   */
  function Strip(s: string): (r: string)
    ensures var k := LeadingSpaces(s);
            k + |r| <= |s| && r == s[k..k + |r|] && AllSpace(s[..k]) && AllSpace(s[k + |r|..])
    ensures r == [] <==> AllSpace(s)
    ensures r != [] ==> !IsSpace(r[0]) && !IsSpace(r[|r| - 1])
  {
    var k := LeadingSpaces(s);
    var j := TrailingSpaces(s[k..]);
    StrippedBetween(s, k, j);
    s[k..|s| - j]
  }

  /**
   * Whatever the counting functions return: once `k` leading and then `j`
   * trailing whitespace characters are cut, with a non-space character
   * after each cut, what is left lies between two all-whitespace ends, is
   * empty exactly when `s` is all whitespace, and otherwise has non-space ends.
   */
  lemma StrippedBetween(s: string, k: nat, j: nat)
    requires k <= |s| && AllSpace(s[..k]) && (k == |s| || !IsSpace(s[k]))
    requires j <= |s| - k && AllSpace(s[k..][|s| - k - j..])
    requires j == |s| - k || !IsSpace(s[k..][|s| - k - j - 1])
    ensures var r := s[k..|s| - j];
            && AllSpace(s[k + |r|..])
            && (r == [] <==> AllSpace(s))
            && (r != [] ==> !IsSpace(r[0]) && !IsSpace(r[|r| - 1]))
  {
    assert s[k..][|s| - k - j..] == s[|s| - j..];
    if k == |s| {
      assert s[..k] == s;
    } else {
      assert s[k] == s[k..|s| - j][0];
    }
  }

  /** `p in s`: `p` occurs somewhere in `s` (the empty string occurs everywhere). */
  predicate Contains(s: string, p: string)
    ensures p <= s ==> Contains(s, p)
    ensures Contains(s, p) ==> |p| <= |s|
    decreases |s|
  {
    p <= s || (s != [] && Contains(s[1..], p))
  }

  /** `p in s` exactly when `p` starts at some position of `s`. */
  lemma {:induction false} ContainsAt(s: string, p: string)
    ensures Contains(s, p) <==> exists k :: 0 <= k <= |s| && p <= s[k..]
    decreases |s|
  {
    assert s[0..] == s;
    if s != [] {
      ContainsAt(s[1..], p);
      if Contains(s, p) && !(p <= s) {
        var k :| 0 <= k <= |s| - 1 && p <= s[1..][k..];
        assert s[1..][k..] == s[k + 1..];
      }
      if !Contains(s, p) {
        forall k | 0 <= k <= |s|
          ensures !(p <= s[k..])
        {
          if k > 0 {
            assert s[1..][k - 1..] == s[k..];
          }
        }
      }
    }
  }

  /** `s.endswith(p)`. */
  predicate EndsWith(s: string, p: string) {
    |p| <= |s| && s[|s| - |p|..] == p
  }

  /** `s.count(pat)` for a non-empty pattern: non-overlapping occurrences, scanned left to right. */
  function Count(s: string, pat: string): (c: nat)
    requires pat != []
    ensures c * |pat| <= |s|
    decreases |s|
  {
    if s == [] then 0
    else if pat <= s then 1 + Count(s[|pat|..], pat)
    else Count(s[1..], pat)
  }

  /** `s.replace(target, repl)` for a non-empty `target`: non-overlapping occurrences, left to right. */
  function Replace(s: string, target: string, repl: string): (r: string)
    requires target != []
    decreases |s|
  {
    if s == [] then []
    else if target <= s then repl + Replace(s[|target|..], target, repl)
    else [s[0]] + Replace(s[1..], target, repl)
  }

  /** Every counted occurrence of `target` gives way to one copy of `repl`; nothing else changes length. */
  lemma {:induction false} ReplaceLength(s: string, target: string, repl: string)
    requires target != []
    ensures |Replace(s, target, repl)| + Count(s, target) * |target| == |s| + Count(s, target) * |repl|
    decreases |s|
  {
    if s != [] {
      if target <= s {
        var c := Count(s[|target|..], target);
        ReplaceLength(s[|target|..], target, repl);
        MulSucc(c, |target|);
        MulSucc(c, |repl|);
      } else {
        ReplaceLength(s[1..], target, repl);
      }
    }
  }

  /** One more copy of `k`. */
  lemma MulSucc(c: nat, k: nat)
    ensures (c + 1) * k == c * k + k
  {
  }

  /** `s.split(sep)` with an explicit one-character separator: adjacent separators give empty pieces. */
  function Split(s: string, sep: char): (parts: seq<string>)
    ensures |parts| >= 1
    ensures forall k :: 0 <= k < |parts| ==> sep !in parts[k]
    decreases |s|
  {
    if s == [] then [[]]
    else
      var rest := Split(s[1..], sep);
      if s[0] == sep then [[]] + rest
      else [[s[0]] + rest[0]] + rest[1..]
  }

  /** `sep.join(parts)`. */
  function Join(parts: seq<string>, sep: string): (r: string)
    ensures parts != [] ==> parts[0] <= r
    decreases |parts|
  {
    if parts == [] then []
    else if |parts| == 1 then parts[0]
    else parts[0] + sep + Join(parts[1..], sep)
  }

  /** `s * n` for a string and a count. */
  function Repeat(s: string, n: nat): (r: string)
    ensures |r| == n * |s|
  {
    if n == 0 then [] else s + Repeat(s, n - 1)
  }

  /** The first copy of a repetition, split off in front of what follows. */
  lemma RepeatFirst(p: string, n: nat, s: string)
    requires n > 0
    ensures Repeat(p, n) + s == p + (Repeat(p, n - 1) + s)
  {
  }

  // ---------------------------------------------------------------------
  // Split and Join are inverse to each other.
  // ---------------------------------------------------------------------

  /** Prepending a character to the first piece prepends it to the join. */
  lemma JoinPrepend(c: char, parts: seq<string>, sep: string)
    requires parts != []
    ensures Join([[c] + parts[0]] + parts[1..], sep) == [c] + Join(parts, sep)
  {
    var q := [[c] + parts[0]] + parts[1..];
    assert q[0] == [c] + parts[0] && q[1..] == parts[1..];
  }

  /** Joining the pieces of a split with the separator gives back the string. */
  lemma {:induction false} JoinSplit(s: string, sep: char)
    ensures Join(Split(s, sep), [sep]) == s
    decreases |s|
  {
    if s != [] {
      var rest := Split(s[1..], sep);
      JoinSplit(s[1..], sep);
      if s[0] == sep {
        assert Split(s, sep) == [[]] + rest;
        assert Join([[]] + rest, [sep]) == [] + [sep] + Join(rest, [sep]);
      } else {
        JoinPrepend(s[0], rest, [sep]);
      }
      assert s == [s[0]] + s[1..];
    }
  }

  /** A string free of the separator splits into itself alone. */
  lemma {:induction false} SplitWithoutSeparator(a: string, sep: char)
    requires sep !in a
    ensures Split(a, sep) == [a]
    decreases |a|
  {
    if a != [] {
      SplitWithoutSeparator(a[1..], sep);
      assert a == [a[0]] + a[1..];
    }
  }

  /** A separator-free piece followed by the separator is split off as the first piece. */
  lemma {:induction false} SplitFirstPiece(a: string, sep: char, b: string)
    requires sep !in a
    ensures Split(a + [sep] + b, sep) == [a] + Split(b, sep)
    decreases |a|
  {
    var s := a + [sep] + b;
    if a == [] {
      assert s == [sep] + b;
      assert s[1..] == b;
    } else {
      assert s[1..] == a[1..] + [sep] + b;
      SplitFirstPiece(a[1..], sep, b);
      assert a == [a[0]] + a[1..];
    }
  }

  /** Splitting the join of separator-free pieces gives back the pieces. */
  lemma {:induction false} SplitJoin(parts: seq<string>, sep: char)
    requires |parts| >= 1
    requires forall k :: 0 <= k < |parts| ==> sep !in parts[k]
    ensures Split(Join(parts, [sep]), sep) == parts
    decreases |parts|
  {
    if |parts| == 1 {
      SplitWithoutSeparator(parts[0], sep);
    } else {
      SplitJoin(parts[1..], sep);
      SplitFirstPiece(parts[0], sep, Join(parts[1..], [sep]));
      assert parts == [parts[0]] + parts[1..];
    }
  }

  // ---------------------------------------------------------------------
  // Facts about strip, count, replace and `in` used by the rule parser.
  // ---------------------------------------------------------------------

  /** A string with non-space ends is its own strip. */
  lemma StripUnchanged(s: string)
    requires s != [] && !IsSpace(s[0]) && !IsSpace(s[|s| - 1])
    ensures Strip(s) == s
  {
  }

  /** Leading spaces do not survive a strip. */
  lemma StripLeadingSpace(s: string)
    requires s != [] && !IsSpace(s[0]) && !IsSpace(s[|s| - 1])
    ensures Strip(" " + s) == s
  {
    assert (" " + s)[1..] == s;
    assert LeadingSpaces(" " + s) == 1;
    StripUnchanged(s);
  }

  /** A pattern cannot occur in a string that lacks one of its characters. */
  lemma {:induction false} NotContainsMissingChar(s: string, p: string, c: char)
    requires c in p && c !in s
    ensures !Contains(s, p)
    decreases |s|
  {
    if s != [] {
      NotContainsMissingChar(s[1..], p, c);
    }
  }

  /** No occurrence is counted in a string that lacks the pattern's first character. */
  lemma {:induction false} CountWithoutFirstChar(s: string, pat: string)
    requires pat != [] && pat[0] !in s
    ensures Count(s, pat) == 0
    decreases |s|
  {
    if s != [] {
      CountWithoutFirstChar(s[1..], pat);
    }
  }

  /** `n` leading copies of the pattern add `n` to the count. */
  lemma {:induction false} CountRepeat(pat: string, n: nat, s: string)
    requires pat != []
    ensures Count(Repeat(pat, n) + s, pat) == n + Count(s, pat)
  {
    if n > 0 {
      RepeatFirst(pat, n, s);
      CountAtMatch(pat, Repeat(pat, n - 1) + s);
      CountRepeat(pat, n - 1, s);
    } else {
      assert Repeat(pat, n) + s == s;
    }
  }

  /** An occurrence of the pattern at the front is counted, and the scan goes on after it. */
  lemma CountAtMatch(pat: string, rest: string)
    requires pat != []
    ensures Count(pat + rest, pat) == 1 + Count(rest, pat)
  {
    assert (pat + rest)[|pat|..] == rest;
  }

  /** Nothing is replaced in a string that lacks the first character of `target`. */
  lemma {:induction false} ReplaceWithoutFirstChar(s: string, target: string, repl: string)
    requires target != [] && target[0] !in s
    ensures Replace(s, target, repl) == s
    decreases |s|
  {
    if s != [] {
      ReplaceWithoutFirstChar(s[1..], target, repl);
      assert s == [s[0]] + s[1..];
    }
  }

  /** `n` leading copies of `target` vanish when replaced by the empty string. */
  lemma {:induction false} ReplaceRepeat(target: string, n: nat, s: string)
    requires target != []
    ensures Replace(Repeat(target, n) + s, target, []) == Replace(s, target, [])
  {
    if n > 0 {
      RepeatFirst(target, n, s);
      ReplaceAtMatch(target, Repeat(target, n - 1) + s, []);
      ReplaceRepeat(target, n - 1, s);
    } else {
      assert Repeat(target, n) + s == s;
    }
  }

  /** An occurrence of `target` at the front is replaced, and the scan goes on after it. */
  lemma ReplaceAtMatch(target: string, rest: string, repl: string)
    requires target != []
    ensures Replace(target + rest, target, repl) == repl + Replace(rest, target, repl)
  {
    assert (target + rest)[|target|..] == rest;
  }

  /** A character where `target` does not start is copied through. */
  lemma ReplaceSkipsChar(c: char, s: string, target: string, repl: string)
    requires target != [] && !(target <= [c] + s)
    ensures Replace([c] + s, target, repl) == [c] + Replace(s, target, repl)
  {
    assert ([c] + s)[1..] == s;
  }

  /** Replacing one character by another rewrites exactly the positions holding it. */
  lemma {:induction false} ReplaceChar(s: string, a: char, b: char)
    ensures |Replace(s, [a], [b])| == |s|
    ensures forall i :: 0 <= i < |s| ==> Replace(s, [a], [b])[i] == (if s[i] == a then b else s[i])
    decreases |s|
  {
    if s != [] {
      ReplaceChar(s[1..], a, b);
      assert [a] <= s <==> s[0] == a;
      var r := Replace(s, [a], [b]);
      assert r == [if s[0] == a then b else s[0]] + Replace(s[1..], [a], [b]);
    }
  }

  /** The separator join ends with its last piece. */
  lemma {:induction false} JoinEndsWithLast(parts: seq<string>, sep: string)
    requires parts != []
    ensures EndsWith(Join(parts, sep), parts[|parts| - 1])
    decreases |parts|
  {
    if |parts| > 1 {
      JoinEndsWithLast(parts[1..], sep);
      var j := Join(parts, sep);
      var tail := Join(parts[1..], sep);
      assert j == parts[0] + sep + tail;
      assert j[|j| - |tail|..] == tail;
    }
  }
}
