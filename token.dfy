/**
 * Token resolution (`Parser.__token_parse`): a left fold over the
 * `.`-separated segments of a tag into the loaded preset document, followed
 * by a dispatch on the type of the value reached.
 */
module Token {
  import opened Wrappers
  import opened Text
  import opened Exception

  /**
   * What `yaml.safe_load` / `json.load` return. A mapping lists its entries
   * in insertion order, as a Python dict does; a float is kept as the text
   * `str()` gives for it.
   */
  datatype Document =
    | Mapping(entries: seq<(string, Document)>)
    | List(items: seq<Document>)
    | Str(s: string)
    | Int(i: int)
    | Bool(b: bool)
    | Null
    | Float(text: string)

  /** The types `__token_parse` turns into a string directly. */
  predicate IsScalar(v: Document) { v.Str? || v.Int? || v.Float? || v.Bool? }

  /** `dict[key]`, or None for a `KeyError`. */
  function Lookup(entries: seq<(string, Document)>, key: string): (r: Option<Document>)
    ensures r.None? <==> forall k :: 0 <= k < |entries| ==> entries[k].0 != key
    ensures r.Some? ==> exists k :: 0 <= k < |entries| && entries[k] == (key, r.value)
    decreases |entries|
  {
    if |entries| == 0 then None
    else if entries[0].0 == key then Some(entries[0].1)
    else
      var r := Lookup(entries[1..], key);
      assert r.Some? ==> exists k :: 0 <= k < |entries| - 1 && entries[1..][k] == (key, r.value);
      r
  }

  /** `node[key]` with a string key: None for the `KeyError` and `TypeError` that `__token_parse` catches. */
  function Index(node: Document, key: string): Option<Document>
  {
    if node.Mapping? then Lookup(node.entries, key) else None
  }

  /** `reduce(lambda key, val: key[val], keys, node)`; None when a step raises. */
  function Walk(node: Document, keys: seq<string>): Option<Document>
    decreases |keys|
  {
    if |keys| == 0 then Some(node)
    else
      match Index(node, keys[0])
      case None => None
      case Some(child) => Walk(child, keys[1..])
  }

  /** Python's `repr` of a string: single quotes unless only the other kind avoids escaping. */
  function QuoteRepr(s: string): string
  {
    if '\'' in s && '"' !in s then "\"" + Escaped(s, '"') + "\""
    else "'" + Escaped(s, '\'') + "'"
  }

  function Escaped(s: string, quote: char): string
    decreases |s|
  {
    if |s| == 0 then ""
    else
      var c := s[0];
      var e := if c == '\\' then "\\\\"
               else if c == quote then ['\\', quote]
               else if c == '\n' then "\\n"
               else if c == '\r' then "\\r"
               else if c == '\t' then "\\t"
               else [c];
      e + Escaped(s[1..], quote)
  }

  /** Python's `repr`, which `str` of a list or dict applies to each element. */
  function Repr(v: Document): string
    decreases v
  {
    match v
    case Str(s) => QuoteRepr(s)
    case Int(i) => IntToString(i)
    case Bool(b) => if b then "True" else "False"
    case Null => "None"
    case Float(t) => t
    case List(items) =>
      "[" + Join(seq(|items|, k requires 0 <= k < |items| => Repr(items[k])), ", ") + "]"
    case Mapping(entries) =>
      "{" + Join(seq(|entries|, k requires 0 <= k < |entries| =>
                       QuoteRepr(entries[k].0) + ": " + Repr(entries[k].1)), ", ") + "}"
  }

  /** Python's `str`. */
  function PyStr(v: Document): string
  {
    if v.Str? then v.s else Repr(v)
  }

  /** The custom message of the `TokenError` for a value of an unsupported type. */
  function NotScalarText(tag: string): (r: string)
    ensures r != "" && Contains(r, tag)
    ensures r != TokenNotFoundText(tag)
  {
    var head := "The value of the tag \"";
    var tail := "\" is not a numeric, boolean, string or list.";
    ContainsMiddle(head, tag, tail);
    assert (head + tag + tail)[1] == 'h';
    assert TokenNotFoundText(tag)[1] == 'o';
    head + tag + tail
  }

  /**
   * `Parser.__token_parse(tag, contents)`. `random.choice` is the list
   * element at `pick % len`, for an index `pick` drawn by the random source.
   */
  function TokenParse(tag: string, contents: Document, pick: nat): Result<string, Error>
  {
    match Walk(contents, Split(tag, '.'))
    case None => Failure(NewTokenError(tag, ""))
    case Some(value) =>
      if value.List? then
        if |value.items| == 0 then Failure(IndexError)
        else Success(PyStr(value.items[pick % |value.items|]))
      else if IsScalar(value) then Success(PyStr(value))
      else Failure(NewTokenError("", NotScalarText(tag)))
  }

  // ---------------------------------------------------------------------------
  // The fold

  /** The fold over `a + b` is the fold over `b` started where the fold over `a` ends. */
  lemma {:induction false} WalkAppend(node: Document, a: seq<string>, b: seq<string>)
    ensures Walk(node, a + b) == match Walk(node, a) case None => None case Some(v) => Walk(v, b)
    decreases |a|
  {
    if |a| > 0 {
      assert (a + b)[0] == a[0] && (a + b)[1..] == a[1..] + b;
      match Index(node, a[0])
      case None =>
      case Some(child) => WalkAppend(child, a[1..], b);
    } else {
      assert a + b == b;
    }
  }

  /**
   * A walk that succeeds indexes by every segment in order: each proper
   * prefix of the keys leads to a mapping holding the next key.
   */
  lemma WalkVisitsEverySegment(node: Document, keys: seq<string>, i: nat)
    requires Walk(node, keys).Some?
    requires i < |keys|
    ensures Walk(node, keys[..i]).Some?
    ensures Walk(node, keys[..i]).value.Mapping?
    ensures Lookup(Walk(node, keys[..i]).value.entries, keys[i]).Some?
  {
    assert keys == keys[..i] + keys[i..];
    WalkAppend(node, keys[..i], keys[i..]);
  }

  /** Once the fold reaches a value that is not a mapping, any further segment fails. */
  lemma WalkStopsAtNonMapping(node: Document, keys: seq<string>, i: nat)
    requires i < |keys|
    requires Walk(node, keys[..i]).Some? && !Walk(node, keys[..i]).value.Mapping?
    ensures Walk(node, keys) == None
  {
    assert keys == keys[..i] + keys[i..];
    WalkAppend(node, keys[..i], keys[i..]);
  }

  /** The document that holds `leaf` under the key path `keys`, one mapping per segment. */
  function Nested(keys: seq<string>, leaf: Document): Document
    decreases |keys|
  {
    if |keys| == 0 then leaf else Mapping([(keys[0], Nested(keys[1..], leaf))])
  }

  /** An n-segment path reaches the leaf stored n mappings deep. */
  lemma {:induction false} WalkNested(keys: seq<string>, leaf: Document)
    ensures Walk(Nested(keys, leaf), keys) == Some(leaf)
    decreases |keys|
  {
    if |keys| > 0 { WalkNested(keys[1..], leaf); }
  }

  /** A tag of `n` dot-free segments resolves the string stored `n` mappings deep. */
  lemma HierarchicalTag(keys: seq<string>, text: string, pick: nat)
    requires |keys| >= 1
    requires forall k :: 0 <= k < |keys| ==> '.' !in keys[k]
    ensures TokenParse(Join(keys, "."), Nested(keys, Str(text)), pick) == Success(text)
  {
    var tag := Join(keys, ['.']);
    SplitJoin(keys, '.');
    WalkNested(keys, Str(text));
    ScalarLeaf(tag, Nested(keys, Str(text)), Str(text), pick);
  }

  // ---------------------------------------------------------------------------
  // The dispatch

  /** A missing key, or a segment applied to a non-mapping, is a `TokenError` naming the tag. */
  lemma FailedWalkIsTokenError(tag: string, contents: Document, pick: nat)
    requires Walk(contents, Split(tag, '.')) == None
    ensures TokenParse(tag, contents, pick) == Failure(TokenError(TokenNotFoundText(tag)))
    ensures Contains(TokenParse(tag, contents, pick).error.message, tag)
  {
  }

  /** A scalar leaf yields its `str`. */
  lemma ScalarLeaf(tag: string, contents: Document, v: Document, pick: nat)
    requires Walk(contents, Split(tag, '.')) == Some(v) && IsScalar(v)
    ensures TokenParse(tag, contents, pick) == Success(PyStr(v))
  {
  }

  /** A draw `pick` from a non-empty list leaf yields `str` of the element at `pick % len`. */
  lemma ListLeafDraw(tag: string, contents: Document, items: seq<Document>, pick: nat)
    requires Walk(contents, Split(tag, '.')) == Some(List(items))
    requires |items| > 0
    ensures TokenParse(tag, contents, pick) == Success(PyStr(items[pick % |items|]))
  {
  }

  /** The strings a list leaf can produce: `str` of each of its elements. */
  function Renderings(items: seq<Document>): set<string>
  {
    set k | 0 <= k < |items| :: PyStr(items[k])
  }

  /** Whatever the draw, a list leaf yields `str` of one of its elements. */
  lemma ListLeafMembership(tag: string, contents: Document, items: seq<Document>, pick: nat)
    requires Walk(contents, Split(tag, '.')) == Some(List(items))
    requires |items| > 0
    ensures TokenParse(tag, contents, pick) in Successes(Renderings(items))
  {
    ListLeafDraw(tag, contents, items, pick);
    assert PyStr(items[pick % |items|]) in Renderings(items);
  }

  /** Every element of a list leaf is the result of some draw. */
  lemma ListLeafEveryElement(tag: string, contents: Document, items: seq<Document>, k: nat)
    requires Walk(contents, Split(tag, '.')) == Some(List(items))
    requires k < |items|
    ensures TokenParse(tag, contents, k) == Success(PyStr(items[k]))
  {
    ListLeafDraw(tag, contents, items, k);
    SmallRemainder(k, |items|);
  }

  lemma SmallRemainder(k: nat, n: nat)
    requires k < n
    ensures k % n == k
  {
  }

  function Successes(values: set<string>): set<Result<string, Error>>
  {
    set v | v in values :: Success(v)
  }

  /**
   * Every outcome of `__token_parse`: success exactly for a scalar or a
   * non-empty list; an `IndexError` exactly for an empty list; otherwise a
   * `TokenError` whose message names the tag.
   */
  lemma TokenParseOutcomes(tag: string, contents: Document, pick: nat)
    ensures var w := Walk(contents, Split(tag, '.'));
            var r := TokenParse(tag, contents, pick);
            && (r.Success? <==> w.Some? && (IsScalar(w.value) || (w.value.List? && |w.value.items| > 0)))
            && (r == Failure(IndexError) <==> w == Some(List([])))
            && (r.Failure? && r.error != IndexError ==> r.error.TokenError? && Contains(r.error.message, tag))
            && (w.Some? && IsScalar(w.value) ==> r == Success(PyStr(w.value)))
            && (w.Some? && (w.value.Mapping? || w.value.Null?) ==> r == Failure(TokenError(NotScalarText(tag))))
  {
  }
}
