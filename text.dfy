/**
 * Character classes, Python's `str` ordering and `str.split`, and the decimal
 * rendering of integers (`str(int)`), on `string` = `seq<char>`.
 * Only ASCII letters, digits and `_` are word characters here.
 */
module Text {

  predicate IsAsciiLetter(c: char) { 'a' <= c <= 'z' || 'A' <= c <= 'Z' }

  predicate IsDigit(c: char) { '0' <= c <= '9' }

  /** The regular-expression class `\w`, restricted to ASCII. */
  predicate IsWordChar(c: char) { IsAsciiLetter(c) || IsDigit(c) || c == '_' }

  function LowerChar(c: char): char
  {
    if 'A' <= c <= 'Z' then (c as int + 32) as char else c
  }

  /** ASCII lower-casing, the comparison key of a case-insensitive match. */
  function Lower(s: string): (r: string)
    ensures |r| == |s|
    ensures forall i :: 0 <= i < |s| ==> r[i] == LowerChar(s[i])
  {
    seq(|s|, i requires 0 <= i < |s| => LowerChar(s[i]))
  }

  lemma LowerConcat(a: string, b: string)
    ensures Lower(a + b) == Lower(a) + Lower(b)
  {
  }

  /** Cutting a suffix at `n` gives the slices of the whole at `i + n`. */
  lemma SuffixSlices(s: string, i: nat, n: nat)
    requires i + n <= |s|
    ensures s[i..][..n] == s[i..i + n] && s[i..][n..] == s[i + n..]
  {
  }

  /** A slice ends with its last character. */
  lemma SnocSlice(s: string, a: nat, b: nat)
    requires a < b <= |s|
    ensures s[a..b] == s[a..b - 1] + [s[b - 1]]
  {
  }

  /** A suffix cut at two points. */
  lemma ThreeSlices(s: string, a: nat, b: nat, c: nat)
    requires a <= b <= c <= |s|
    ensures s[a..] == s[a..b] + (s[b..c] + s[c..])
  {
  }

  /** A slice of a slice is a slice of the original. */
  lemma SliceOfSlice(s: string, a: nat, b: nat, c: nat, d: nat)
    requires a <= b <= |s| && c <= d <= b - a
    ensures s[a..b][c..d] == s[a + c..a + d]
  {
    var inner, outer := s[a..b][c..d], s[a + c..a + d];
    forall k | 0 <= k < d - c ensures inner[k] == outer[k] {
      assert inner[k] == s[a + c + k];
    }
  }

  predicate StartsWith(s: string, prefix: string)
  {
    |prefix| <= |s| && s[..|prefix|] == prefix
  }

  /** `t in s` on Python strings: `t` occurs somewhere in `s`. */
  predicate Contains(s: string, t: string)
  {
    exists i :: 0 <= i <= |s| - |t| && OccursAt(s, t, i)
  }

  predicate OccursAt(s: string, t: string, i: int)
  {
    0 <= i <= |s| - |t| && s[i..i + |t|] == t
  }

  /** A string lacking the first character of `t` does not contain `t`. */
  lemma NotContainsFirst(s: string, t: string)
    requires |t| > 0 && t[0] !in s
    ensures !Contains(s, t)
  {
  }

  lemma ContainsMiddle(a: string, t: string, b: string)
    ensures Contains(a + t + b, t)
  {
    var s := a + t + b;
    assert OccursAt(s, t, |a|);
  }

  /** Python's `<` on `str`: lexicographic by code point, a proper prefix first. */
  predicate Less(a: string, b: string)
    decreases |a|
  {
    if |b| == 0 then false
    else if |a| == 0 then true
    else if a[0] != b[0] then a[0] < b[0]
    else Less(a[1..], b[1..])
  }

  lemma {:induction false} LessIrreflexive(a: string)
    ensures !Less(a, a)
    decreases |a|
  {
    if |a| > 0 { LessIrreflexive(a[1..]); }
  }

  lemma {:induction false} LessTransitive(a: string, b: string, c: string)
    requires Less(a, b) && Less(b, c)
    ensures Less(a, c)
    decreases |a|
  {
    if |a| > 0 && a[0] == b[0] && b[0] == c[0] {
      LessTransitive(a[1..], b[1..], c[1..]);
    }
  }

  /** `<` on strings is a strict total order: distinct strings are comparable. */
  lemma {:induction false} LessTotal(a: string, b: string)
    ensures a == b || Less(a, b) || Less(b, a)
    decreases |a|
  {
    if |a| > 0 && |b| > 0 && a[0] == b[0] {
      LessTotal(a[1..], b[1..]);
      if a[1..] == b[1..] {
        assert a == [a[0]] + a[1..] && b == [b[0]] + b[1..];
      }
    }
  }

  lemma {:induction false} LessAsymmetric(a: string, b: string)
    requires Less(a, b)
    ensures !Less(b, a)
    decreases |a|
  {
    if |a| > 0 && a[0] == b[0] { LessAsymmetric(a[1..], b[1..]); }
  }

  /** A common prefix does not change the order of two strings. */
  lemma {:induction false} LessCommonPrefix(p: string, x: string, y: string)
    ensures Less(p + x, p + y) <==> Less(x, y)
    decreases |p|
  {
    if |p| > 0 {
      assert (p + x)[0] == p[0] == (p + y)[0];
      assert (p + x)[1..] == p[1..] + x;
      assert (p + y)[1..] == p[1..] + y;
      LessCommonPrefix(p[1..], x, y);
    } else {
      assert p + x == x && p + y == y;
    }
  }

  /**
   * The element that `list.sort()` followed by `[0]` yields: the least one
   * under `Less` (see LeastIsMinimum and SortedHeadIsLeast).
   */
  function Least(s: seq<string>): string
    requires |s| > 0
  {
    if |s| == 1 then s[0]
    else
      var m := Least(s[1..]);
      if Less(s[0], m) then s[0] else m
  }

  lemma {:induction false} LeastIsMinimum(s: seq<string>)
    requires |s| > 0
    ensures Least(s) in s
    ensures forall x :: x in s ==> !Less(x, Least(s))
  {
    if |s| == 1 {
      LessIrreflexive(s[0]);
    } else {
      LeastIsMinimum(s[1..]);
      var m := Least(s[1..]);
      forall x | x in s
        ensures !Less(x, Least(s))
      {
        if x == s[0] {
          if !Less(s[0], m) {
            LessTotal(s[0], m);
            if x != m { LessAsymmetric(m, s[0]); }
          } else {
            LessIrreflexive(s[0]);
          }
        } else {
          assert x in s[1..];
          if Less(s[0], m) && Less(x, s[0]) { LessTransitive(x, s[0], m); }
        }
      }
    }
  }

  /** Sorted in the ascending order `list.sort()` produces. */
  predicate SortedAscending(s: seq<string>)
  {
    forall i, j :: 0 <= i < j < |s| ==> !Less(s[j], s[i])
  }

  /** Whatever permutation `list.sort()` returns, its first element is `Least`. */
  lemma SortedHeadIsLeast(files: seq<string>, sorted: seq<string>)
    requires |files| > 0
    requires multiset(sorted) == multiset(files)
    requires SortedAscending(sorted)
    ensures |sorted| > 0 && sorted[0] == Least(files)
  {
    assert files[0] in multiset(sorted);
    LeastIsMinimum(files);
    var m := Least(files);
    assert m in multiset(sorted);
    var k :| 0 <= k < |sorted| && sorted[k] == m;
    assert sorted[0] in multiset(files);
    assert sorted[0] in files;
    assert !Less(sorted[0], m);
    if k > 0 { assert !Less(sorted[k], sorted[0]); }
    LessTotal(sorted[0], m);
  }

  /** Python's `str.split(sep)` with a one-character separator. */
  function Split(s: string, sep: char): (parts: seq<string>)
    ensures |parts| >= 1
    decreases |s|
  {
    if |s| == 0 then [""]
    else
      var rest := Split(s[1..], sep);
      if s[0] == sep then [""] + rest else [[s[0]] + rest[0]] + rest[1..]
  }

  /** `sep.join(parts)`. */
  function Join(parts: seq<string>, sep: string): string
    decreases |parts|
  {
    if |parts| == 0 then ""
    else if |parts| == 1 then parts[0]
    else parts[0] + sep + Join(parts[1..], sep)
  }

  /** `''.join([a] + rest)` is `a` followed by `''.join(rest)`. */
  lemma JoinConsNoSeparator(a: string, rest: seq<string>)
    ensures Join([a] + rest, "") == a + Join(rest, "")
  {
    if |rest| == 0 {
      assert [a] + rest == [a];
    } else {
      assert ([a] + rest)[1..] == rest;
    }
  }

  lemma {:induction false} SplitPartsHaveNoSeparator(s: string, sep: char)
    ensures forall k :: 0 <= k < |Split(s, sep)| ==> sep !in Split(s, sep)[k]
    decreases |s|
  {
    if |s| > 0 { SplitPartsHaveNoSeparator(s[1..], sep); }
  }

  /** Joining the pieces of a split gives back the original string. */
  lemma {:induction false} JoinSplit(s: string, sep: char)
    ensures Join(Split(s, sep), [sep]) == s
    decreases |s|
  {
    if |s| > 0 {
      JoinSplit(s[1..], sep);
      var rest := Split(s[1..], sep);
      if s[0] == sep {
        assert Split(s, sep)[1..] == rest;
      } else {
        var parts := Split(s, sep);
        if |rest| == 1 {
          assert parts == [[s[0]] + rest[0]];
        } else {
          assert parts[1..] == rest[1..];
          assert Join(rest, [sep]) == rest[0] + [sep] + Join(rest[1..], [sep]);
        }
      }
    }
  }

  /** Splitting a string that starts with a non-separator extends the first piece. */
  lemma SplitNonSeparatorCons(c: char, rest: string, sep: char)
    requires c != sep
    ensures Split([c] + rest, sep) == [[c] + Split(rest, sep)[0]] + Split(rest, sep)[1..]
  {
    assert ([c] + rest)[1..] == rest;
  }

  /** Splitting a string that starts with the separator starts with an empty piece. */
  lemma SplitSeparatorCons(rest: string, sep: char)
    ensures Split([sep] + rest, sep) == [""] + Split(rest, sep)
  {
    assert ([sep] + rest)[1..] == rest;
  }

  /** The join of pieces whose first is non-empty starts with that piece's first character. */
  lemma JoinFirstChar(parts: seq<string>, sep: string)
    requires |parts| >= 1 && |parts[0]| > 0
    ensures Join(parts, sep) == [parts[0][0]] + Join([parts[0][1..]] + parts[1..], sep)
  {
    var p0 := parts[0];
    var tail := [p0[1..]] + parts[1..];
    assert p0 == [p0[0]] + p0[1..];
    if |parts| > 1 {
      assert tail[1..] == parts[1..];
    }
  }

  /** The join of pieces whose first is empty starts with the separator. */
  lemma JoinEmptyFirst(parts: seq<string>, sep: string)
    requires |parts| > 1 && parts[0] == ""
    ensures Join(parts, sep) == sep + Join(parts[1..], sep)
  {
  }

  /** Splitting a join of separator-free pieces gives back those pieces. */
  lemma {:induction false} SplitJoin(parts: seq<string>, sep: char)
    requires |parts| >= 1
    requires forall k :: 0 <= k < |parts| ==> sep !in parts[k]
    ensures Split(Join(parts, [sep]), sep) == parts
    decreases |parts|, |parts[0]|
  {
    if |parts[0]| > 0 {
      var p0 := parts[0];
      var tail := [p0[1..]] + parts[1..];
      JoinFirstChar(parts, [sep]);
      SplitJoin(tail, sep);
      SplitNonSeparatorCons(p0[0], Join(tail, [sep]), sep);
      assert [p0[0]] + p0[1..] == p0;
      assert parts == [p0] + tail[1..];
    } else if |parts| > 1 {
      SplitJoin(parts[1..], sep);
      JoinEmptyFirst(parts, [sep]);
      SplitSeparatorCons(Join(parts[1..], [sep]), sep);
      assert parts == [""] + parts[1..];
    }
  }

  /** Python's `str(n)` for a natural number. */
  function NatToString(n: nat): string
    decreases n
  {
    if n < 10 then [Digit(n)] else NatToString(n / 10) + [Digit(n % 10)]
  }

  function Digit(d: nat): char
    requires d < 10
  {
    ('0' as int + d) as char
  }

  /** Python's `str(i)` for an `int`: a minus sign before the digits when negative. */
  function IntToString(i: int): string
  {
    if i < 0 then "-" + NatToString(-i) else NatToString(i)
  }

  /** The value of a string of decimal digits, most significant first. */
  function DigitsValue(s: string): int
    decreases |s|
  {
    if |s| == 0 then 0 else DigitsValue(s[..|s| - 1]) * 10 + (s[|s| - 1] as int - '0' as int)
  }

  /** `str(n)` is a non-empty run of digits whose value is `n`. */
  lemma {:induction false} NatToStringValue(n: nat)
    ensures |NatToString(n)| > 0
    ensures forall k :: 0 <= k < |NatToString(n)| ==> IsDigit(NatToString(n)[k])
    ensures DigitsValue(NatToString(n)) == n
    decreases n
  {
    if n >= 10 {
      NatToStringValue(n / 10);
      var s := NatToString(n);
      assert s[..|s| - 1] == NatToString(n / 10);
    }
  }

  /** Rendering an integer loses nothing: its sign and digits determine it. */
  lemma IntToStringInjective(i: int, j: int)
    requires IntToString(i) == IntToString(j)
    ensures i == j
  {
    NatToStringValue(if i < 0 then -i else i);
    NatToStringValue(if j < 0 then -j else j);
    assert (IntToString(i)[0] == '-') == (i < 0);
    assert (IntToString(j)[0] == '-') == (j < 0);
    if i < 0 {
      assert IntToString(i)[1..] == NatToString(-i);
      assert IntToString(j)[1..] == NatToString(-j);
    }
  }
}
