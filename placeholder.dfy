/**
 * Legacy placeholder conversion (`Parser.__convert_formatter`): every span the
 * pattern `(\$[a-zA-Z]\w{0,23}\$)` matches becomes `{name}`, and every other
 * character is kept. `ReSplit` is the scan `re.split` performs with that
 * capturing pattern; `Rewrite` is an independent left-to-right definition of
 * the conversion.
 */
module Placeholder {
  import opened Text

  /** `t` is, in full, a `$name$` span: a letter, then 0 to 23 word characters, between dollars. */
  predicate IsPlaceholder(t: string)
  {
    && 3 <= |t| <= 26
    && t[0] == '$' && t[|t| - 1] == '$'
    && IsAsciiLetter(t[1])
    && forall k :: 2 <= k < |t| - 1 ==> IsWordChar(t[k])
  }

  /** No substring of `s` is a placeholder span. */
  predicate NoPlaceholder(s: string)
  {
    forall i, j :: 0 <= i <= j <= |s| ==> !IsPlaceholder(s[i..j])
  }

  /** The number of word characters in a row from index `i`. */
  function WordRun(s: string, i: nat): (n: nat)
    requires i <= |s|
    ensures i + n <= |s|
    decreases |s| - i
  {
    if i < |s| && IsWordChar(s[i]) then 1 + WordRun(s, i + 1) else 0
  }

  /** The run is maximal: word characters up to its end, and none right after it. */
  lemma {:induction false} WordRunMaximal(s: string, i: nat)
    requires i <= |s|
    ensures forall k :: i <= k < i + WordRun(s, i) ==> IsWordChar(s[k])
    ensures i + WordRun(s, i) == |s| || !IsWordChar(s[i + WordRun(s, i)])
    decreases |s| - i
  {
    if i < |s| && IsWordChar(s[i]) { WordRunMaximal(s, i + 1); }
  }

  /** The length of the match of the pattern at index `i`, or 0 when it does not match there. */
  function MatchLen(s: string, i: nat): (n: nat)
    requires i <= |s|
    ensures n > 0 ==> 3 <= n <= 26 && i + n <= |s|
  {
    if i + 1 < |s| && s[i] == '$' && IsAsciiLetter(s[i + 1]) then
      var run := WordRun(s, i + 2);
      if run <= 23 && i + 2 + run < |s| && s[i + 2 + run] == '$' then run + 3 else 0
    else 0
  }

  /** What `MatchLen` finds is a placeholder span. */
  lemma MatchLenSound(s: string, i: nat)
    requires i <= |s| && MatchLen(s, i) > 0
    ensures IsPlaceholder(s[i..i + MatchLen(s, i)])
  {
    var n := MatchLen(s, i);
    var t := s[i..i + n];
    WordRunMaximal(s, i + 2);
    forall k | 2 <= k < n - 1 ensures IsWordChar(t[k]) {
      assert t[k] == s[i + k];
    }
  }

  /** The match at an index is unique: any placeholder span starting there is the one `MatchLen` finds. */
  lemma MatchLenUnique(s: string, i: nat, n: nat)
    requires i + n <= |s| && IsPlaceholder(s[i..i + n])
    ensures MatchLen(s, i) == n
  {
    var t := s[i..i + n];
    assert s[i] == t[0] && s[i + 1] == t[1];
    var run := WordRun(s, i + 2);
    WordRunMaximal(s, i + 2);
    forall k | i + 2 <= k < i + n - 1 ensures IsWordChar(s[k]) {
      assert s[k] == t[k - i];
    }
    assert s[i + n - 1] == t[n - 1] == '$';
    assert run == n - 3;
  }

  /** A match inside a slice is a match of the whole string at the same place. */
  lemma MatchInSlice(s: string, a: nat, b: nat, j: nat)
    requires a + j <= b <= |s|
    requires MatchLen(s[a..b], j) > 0
    ensures MatchLen(s, a + j) == MatchLen(s[a..b], j)
  {
    var n := MatchLen(s[a..b], j);
    MatchLenSound(s[a..b], j);
    SliceOfSlice(s, a, b, j, j + n);
    MatchLenUnique(s, a + j, n);
  }

  /** Matching at index `a + j` of `s` sees only `s[a..]`. */
  lemma MatchLenSuffix(s: string, a: nat, j: nat)
    requires a + j <= |s|
    ensures MatchLen(s[a..], j) == MatchLen(s, a + j)
  {
    var n := MatchLen(s, a + j);
    if n > 0 {
      MatchLenSound(s, a + j);
      assert s[a..][j..j + n] == s[a + j..a + j + n];
      MatchLenUnique(s[a..], j, n);
    } else if MatchLen(s[a..], j) > 0 {
      assert s[a..][..] == s[a..|s|];
      MatchInSlice(s, a, |s|, j);
    }
  }

  /** The pieces `re.split` returns with a capturing pattern, scanning from `i` with a piece open since `start`. */
  function SplitFrom(s: string, start: nat, i: nat): seq<string>
    requires start <= i <= |s|
    decreases |s| - i
  {
    if i == |s| then [s[start..]]
    else
      var n := MatchLen(s, i);
      if n > 0 then [s[start..i], s[i..i + n]] + SplitFrom(s, i + n, i + n)
      else SplitFrom(s, start, i + 1)
  }

  /** `re.split(r'(\$[a-zA-Z]\w{0,23}\$)', s)`. */
  function ReSplit(s: string): seq<string>
  {
    SplitFrom(s, 0, 0)
  }

  /** The conversion, defined directly: rewrite the match at the front, or keep one character. */
  function Rewrite(s: string): string
    decreases |s|
  {
    if |s| == 0 then ""
    else
      var n := MatchLen(s, 0);
      if n > 0 then "{" + s[1..n - 1] + "}" + Rewrite(s[n..]) else [s[0]] + Rewrite(s[1..])
  }

  /** The loop body of `__convert_formatter` on one piece: `re.match` at its start, then `{item[1:-1]}`. */
  function ConvertItem(item: string): string
  {
    if MatchLen(item, 0) > 0 then "{" + item[1..|item| - 1] + "}" else item
  }

  /** The loop body applied to every piece. */
  function ConvertAll(pieces: seq<string>): (r: seq<string>)
    ensures |r| == |pieces|
    decreases |pieces|
  {
    if |pieces| == 0 then [] else [ConvertItem(pieces[0])] + ConvertAll(pieces[1..])
  }

  /** `ConvertAll` converts each piece in its own place. */
  lemma {:induction false} ConvertAllAt(pieces: seq<string>, k: nat)
    requires k < |pieces|
    ensures ConvertAll(pieces)[k] == ConvertItem(pieces[k])
    decreases k
  {
    if k > 0 { ConvertAllAt(pieces[1..], k - 1); }
  }

  // ---------------------------------------------------------------------------
  // The shape of the split

  /** The pieces of `SplitFrom` alternate: literal, span, literal, ..., literal. */
  predicate Alternating(pieces: seq<string>)
  {
    && |pieces| % 2 == 1
    && (forall k :: 0 <= k < |pieces| && k % 2 == 1 ==> IsPlaceholder(pieces[k]))
    && (forall k :: 0 <= k < |pieces| && k % 2 == 0 ==> NoPlaceholder(pieces[k]))
  }

  /** A piece between matches holds no match: the scan passed every one of its positions. */
  lemma LiteralHasNoPlaceholder(s: string, start: nat, i: nat)
    requires start <= i <= |s|
    requires forall j :: start <= j < i ==> MatchLen(s, j) == 0
    ensures NoPlaceholder(s[start..i])
  {
    var lit := s[start..i];
    forall a, b | 0 <= a <= b <= |lit| ensures !IsPlaceholder(lit[a..b]) {
      if IsPlaceholder(lit[a..b]) {
        MatchLenUnique(lit, a, b - a);
        MatchInSlice(s, start, i, a);
        assert false;
      }
    }
  }

  /** A literal and a span in front of an alternating sequence keep it alternating. */
  lemma AlternatingCons(lit: string, span: string, rest: seq<string>)
    requires NoPlaceholder(lit) && IsPlaceholder(span) && Alternating(rest)
    ensures Alternating([lit, span] + rest)
  {
    var pieces := [lit, span] + rest;
    forall k | 2 <= k < |pieces| ensures pieces[k] == rest[k - 2] { }
  }

  /** A literal and a span in front of pieces that spell the tail spell all three. */
  lemma JoinLiteralSpan(lit: string, span: string, rest: seq<string>)
    ensures Join([lit, span] + rest, "") == lit + (span + Join(rest, ""))
  {
    assert [lit, span] + rest == [lit] + ([span] + rest);
    JoinConsNoSeparator(lit, [span] + rest);
    JoinConsNoSeparator(span, rest);
  }

  lemma {:induction false} SplitFromShape(s: string, start: nat, i: nat)
    requires start <= i <= |s|
    requires forall j :: start <= j < i ==> MatchLen(s, j) == 0
    ensures Alternating(SplitFrom(s, start, i))
    ensures Join(SplitFrom(s, start, i), "") == s[start..]
    decreases |s| - i
  {
    if i == |s| {
      LiteralHasNoPlaceholder(s, start, i);
      assert s[start..i] == s[start..];
    } else if MatchLen(s, i) > 0 {
      var n := MatchLen(s, i);
      SplitFromShape(s, i + n, i + n);
      SplitFromMatchShape(s, start, i, n);
    } else {
      SplitFromShape(s, start, i + 1);
    }
  }

  /** The step of `SplitFromShape` at a match, given the shape of what follows it. */
  lemma SplitFromMatchShape(s: string, start: nat, i: nat, n: nat)
    requires start <= i && i + n <= |s| && 0 < n == MatchLen(s, i)
    requires forall j :: start <= j < i ==> MatchLen(s, j) == 0
    requires Alternating(SplitFrom(s, i + n, i + n))
    requires Join(SplitFrom(s, i + n, i + n), "") == s[i + n..]
    ensures Alternating(SplitFrom(s, start, i))
    ensures Join(SplitFrom(s, start, i), "") == s[start..]
  {
    var lit, span, rest := s[start..i], s[i..i + n], SplitFrom(s, i + n, i + n);
    LiteralHasNoPlaceholder(s, start, i);
    MatchLenSound(s, i);
    AlternatingCons(lit, span, rest);
    JoinLiteralSpan(lit, span, rest);
    ThreeSlices(s, start, i, i + n);
  }

  /**
   * What `re.split` promises for a pattern with one capturing group: the
   * pieces alternate between text holding no match and the matched spans,
   * and together they spell the input.
   */
  lemma ReSplitShape(s: string)
    ensures Alternating(ReSplit(s))
    ensures Join(ReSplit(s), "") == s
  {
    SplitFromShape(s, 0, 0);
  }

  // ---------------------------------------------------------------------------
  // The conversion

  /** Where nothing matches, the rewrite copies one character and goes on. */
  lemma RewriteLiteralStep(s: string, start: nat)
    requires start < |s| && MatchLen(s, start) == 0
    ensures Rewrite(s[start..]) == [s[start]] + Rewrite(s[start + 1..])
  {
    var t := s[start..];
    MatchLenSuffix(s, start, 0);
    assert t[1..] == s[start + 1..];
  }

  /** Moving one character from the rewritten tail onto the literal prefix. */
  lemma ShiftLiteral(total: string, lit: string, c: char, rest: string, longer: string)
    requires total == lit + ([c] + rest) && longer == lit + [c]
    ensures total == longer + rest
  {
  }

  /** Text with no match at any of the first positions is copied unchanged up to there. */
  lemma {:induction false} RewriteKeepsLiteral(s: string, start: nat, i: nat)
    requires start <= i <= |s|
    requires forall j :: start <= j < i ==> MatchLen(s, j) == 0
    ensures Rewrite(s[start..]) == s[start..i] + Rewrite(s[i..])
    decreases i - start
  {
    if start == i {
      assert s[start..i] == [];
    } else {
      var k := i - 1;
      RewriteKeepsLiteral(s, start, k);
      RewriteLiteralStep(s, k);
      SnocSlice(s, start, i);
      ShiftLiteral(Rewrite(s[start..]), s[start..k], s[k], Rewrite(s[i..]), s[start..i]);
    }
  }

  /** A piece the scan passed over is not rewritten by the loop body. */
  lemma ConvertLiteralPiece(s: string, start: nat, i: nat)
    requires start <= i <= |s|
    requires forall j :: start <= j < i ==> MatchLen(s, j) == 0
    ensures ConvertItem(s[start..i]) == s[start..i]
  {
    if MatchLen(s[start..i], 0) > 0 {
      MatchInSlice(s, start, i, 0);
    }
  }

  /** A matched span is rewritten by the loop body exactly as `Rewrite` rewrites it in place. */
  lemma ConvertSpanPiece(s: string, i: nat, n: nat)
    requires i + n <= |s| && 0 < n == MatchLen(s, i)
    ensures Rewrite(s[i..]) == ConvertItem(s[i..i + n]) + Rewrite(s[i + n..])
  {
    MatchLenSuffix(s, i, 0);
    FrontSpan(s[i..], n);
    SuffixSlices(s, i, n);
  }

  /** At the front of a text, the span that matches is converted and the rest rewritten after it. */
  lemma FrontSpan(t: string, n: nat)
    requires 0 < n == MatchLen(t, 0)
    ensures Rewrite(t) == ConvertItem(t[..n]) + Rewrite(t[n..])
  {
    var span := t[..n];
    assert span == t[0..n];
    SpanMatchesWhole(t, 0);
    ConvertSpanItem(span, n);
    RewriteFront(t, n);
    SliceOfSlice(t, 0, n, 1, n - 1);
    Recombine(Rewrite(t), ConvertItem(span), t[1..n - 1], span[1..n - 1], Rewrite(t[n..]));
  }

  /** Equal names in equal braces, followed by the same tail. */
  lemma Recombine(whole: string, braced: string, name: string, name': string, tail: string)
    requires whole == "{" + name + "}" + tail && braced == "{" + name' + "}" && name == name'
    ensures whole == braced + tail
  {
  }

  /** A match at the front is rewritten to braces, and the rest is rewritten after it. */
  lemma RewriteFront(t: string, n: nat)
    requires 0 < n && MatchLen(t, 0) == n
    ensures Rewrite(t) == "{" + t[1..n - 1] + "}" + Rewrite(t[n..])
  {
  }

  /** The span `MatchLen` finds matches, in full, on its own. */
  lemma SpanMatchesWhole(s: string, i: nat)
    requires i <= |s| && MatchLen(s, i) > 0
    ensures MatchLen(s[i..i + MatchLen(s, i)], 0) == MatchLen(s, i)
  {
    var n := MatchLen(s, i);
    var span := s[i..i + n];
    MatchLenSound(s, i);
    assert span[0..n] == span;
    MatchLenUnique(span, 0, n);
  }

  /** The loop body turns a matched piece into braces around its name. */
  lemma ConvertSpanItem(span: string, n: nat)
    requires 0 < n == |span| && MatchLen(span, 0) == n
    ensures ConvertItem(span) == "{" + span[1..n - 1] + "}"
  {
  }

  lemma JoinConvertedCons(lit: string, span: string, rest: seq<string>)
    ensures Join(ConvertAll([lit, span] + rest), "")
         == ConvertItem(lit) + (ConvertItem(span) + Join(ConvertAll(rest), ""))
  {
    assert ([lit, span] + rest)[1..] == [span] + rest;
    assert ([span] + rest)[1..] == rest;
    assert ConvertAll([lit, span] + rest) == [ConvertItem(lit)] + ([ConvertItem(span)] + ConvertAll(rest));
    JoinConsNoSeparator(ConvertItem(lit), [ConvertItem(span)] + ConvertAll(rest));
    JoinConsNoSeparator(ConvertItem(span), ConvertAll(rest));
  }

  /** The last piece: the literal that runs to the end. */
  lemma ConvertedLastPiece(s: string, start: nat)
    requires start <= |s|
    requires forall j :: start <= j < |s| ==> MatchLen(s, j) == 0
    ensures Join(ConvertAll(SplitFrom(s, start, |s|)), "") == Rewrite(s[start..])
  {
    RewriteKeepsLiteral(s, start, |s|);
    ConvertLiteralPiece(s, start, |s|);
    assert s[|s|..] == [];
    assert s[start..|s|] == s[start..];
    assert ConvertAll([s[start..|s|]]) == [s[start..|s|]];
  }

  /** A literal and a matched span, given the result for what follows them. */
  lemma ConvertedMatchStep(s: string, start: nat, i: nat, n: nat)
    requires start <= i && i + n <= |s| && 0 < n == MatchLen(s, i)
    requires forall j :: start <= j < i ==> MatchLen(s, j) == 0
    requires Join(ConvertAll(SplitFrom(s, i + n, i + n)), "") == Rewrite(s[i + n..])
    ensures Join(ConvertAll(SplitFrom(s, start, i)), "") == Rewrite(s[start..])
  {
    var lit, span, rest := s[start..i], s[i..i + n], SplitFrom(s, i + n, i + n);
    assert SplitFrom(s, start, i) == [lit, span] + rest;
    RewriteKeepsLiteral(s, start, i);
    ConvertLiteralPiece(s, start, i);
    ConvertSpanPiece(s, i, n);
    JoinConvertedCons(lit, span, rest);
  }

  /** A position where no span starts leaves the split, and so its conversion, unchanged. */
  lemma ConvertedSkipStep(s: string, start: nat, i: nat)
    requires start <= i < |s| && MatchLen(s, i) == 0
    requires Join(ConvertAll(SplitFrom(s, start, i + 1)), "") == Rewrite(s[start..])
    ensures Join(ConvertAll(SplitFrom(s, start, i)), "") == Rewrite(s[start..])
  {
    assert SplitFrom(s, start, i) == SplitFrom(s, start, i + 1);
  }

  lemma {:induction false} ConvertedSplitFrom(s: string, start: nat, i: nat)
    requires start <= i <= |s|
    requires forall j :: start <= j < i ==> MatchLen(s, j) == 0
    ensures Join(ConvertAll(SplitFrom(s, start, i)), "") == Rewrite(s[start..])
    decreases |s| - i, 1
  {
    if i == |s| {
      ConvertedLastPiece(s, start);
    } else if MatchLen(s, i) > 0 {
      ConvertedMatchCase(s, start, i, MatchLen(s, i));
    } else {
      ConvertedSplitFrom(s, start, i + 1);
      ConvertedSkipStep(s, start, i);
    }
  }

  /** The case of `ConvertedSplitFrom` where a span starts at `i`. */
  lemma {:induction false} ConvertedMatchCase(s: string, start: nat, i: nat, n: nat)
    requires start <= i && i + n <= |s| && 0 < n == MatchLen(s, i)
    requires forall j :: start <= j < i ==> MatchLen(s, j) == 0
    ensures Join(ConvertAll(SplitFrom(s, start, i)), "") == Rewrite(s[start..])
    decreases |s| - i, 0
  {
    ConvertedSplitFrom(s, i + n, i + n);
    ConvertedMatchStep(s, start, i, n);
  }

  /** Converting the pieces of `re.split` one by one and joining them is `Rewrite`. */
  lemma ConvertedReSplit(s: string)
    ensures Join(ConvertAll(ReSplit(s)), "") == Rewrite(s)
  {
    ConvertedSplitFrom(s, 0, 0);
  }

  /** Pieces of the split, each converted in its own place, join to the rewrite. */
  lemma ConvertedPiecesJoin(s: string, converted: seq<string>)
    requires |converted| == |ReSplit(s)|
    requires forall k :: 0 <= k < |converted| ==> converted[k] == ConvertItem(ReSplit(s)[k])
    ensures Join(converted, "") == Rewrite(s)
  {
    var pieces := ReSplit(s);
    forall k | 0 <= k < |converted| ensures converted[k] == ConvertAll(pieces)[k] {
      ConvertAllAt(pieces, k);
    }
    assert converted == ConvertAll(pieces);
    ConvertedReSplit(s);
  }

  /** Text holding no `$name$` span is returned unchanged. */
  lemma RewriteWithoutPlaceholder(s: string)
    requires NoPlaceholder(s)
    ensures Rewrite(s) == s
  {
    forall j | 0 <= j < |s| ensures MatchLen(s, j) == 0 {
      if MatchLen(s, j) > 0 { MatchLenSound(s, j); }
    }
    RewriteKeepsLiteral(s, 0, |s|);
    assert s[|s|..] == [];
  }

  /** A `$name$` span at the front becomes `{name}`, and conversion goes on after it. */
  lemma RewriteSpan(name: string, rest: string)
    requires IsPlaceholder("$" + name + "$")
    ensures Rewrite("$" + name + "$" + rest) == "{" + name + "}" + Rewrite(rest)
  {
    var t := "$" + name + "$";
    var s := t + rest;
    SpanSlices(t, name, rest);
    MatchLenUnique(s, 0, |t|);
    RewriteFront(s, |t|);
  }

  /** The parts of a span followed by a tail. */
  lemma SpanSlices(t: string, name: string, rest: string)
    requires t == "$" + name + "$"
    ensures (t + rest)[0..|t|] == t && (t + rest)[1..|t| - 1] == name && (t + rest)[|t|..] == rest
  {
  }

  /** Text without a `$` is returned unchanged. */
  lemma {:induction false} RewriteWithoutDollar(s: string)
    requires '$' !in s
    ensures Rewrite(s) == s
    decreases |s|
  {
    if |s| > 0 {
      assert MatchLen(s, 0) == 0;
      RewriteWithoutDollar(s[1..]);
      assert s == [s[0]] + s[1..];
    }
  }

  /** A `$` not followed by an ASCII letter starts no span (`$_name$`, `$1name$`). */
  lemma RewriteKeepsDollarBeforeNonLetter(rest: string)
    requires |rest| > 0 && !IsAsciiLetter(rest[0])
    ensures Rewrite("$" + rest) == "$" + Rewrite(rest)
  {
    var s := "$" + rest;
    assert MatchLen(s, 0) == 0;
    assert s[1..] == rest;
  }

  /** A name of more than 24 characters starts no span: only its leading `$` is examined and kept. */
  lemma RewriteKeepsLongName(name: string, rest: string)
    requires |name| > 24 && IsAsciiLetter(name[0])
    requires forall k :: 0 <= k < |name| ==> IsWordChar(name[k])
    ensures Rewrite("$" + name + "$" + rest) == "$" + Rewrite(name + "$" + rest)
  {
    var s := "$" + name + "$" + rest;
    WordRunMaximal(s, 2);
    assert MatchLen(s, 0) == 0;
    assert s[1..] == name + "$" + rest;
  }
}
