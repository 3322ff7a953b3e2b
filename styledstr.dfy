/**
 * The parser object (`Parser` in styledstr.py): its two configured fields,
 * the loading of a preset, the conversion of legacy placeholders, and what
 * `parse` returns or lets escape for a tag.
 */
module Styledstr {
  import opened Wrappers
  import opened Text
  import opened Paths
  import opened Exception
  import opened Token
  import opened Placeholder
  import opened Preset

  /** The configuration keys the parser reads, and their defaults. */
  const RespathKey := "styledstr_respath"
  const PresetKey := "styledstr_preset"
  const DefaultRespath: Path := "."
  const DefaultPreset := "default"

  /** The value a configuration field takes: the one given under its key, else the default. */
  function Setting(conf: map<string, string>, key: string, default: string): string
  {
    if key in conf then conf[key] else default
  }

  /** `Path(s)`: the empty string is the current directory. */
  function PathOf(s: string): Path
  {
    if s == "" then "." else s
  }

  /** How a call to `parse` ends: a return value (None after a logged error), or an exception. */
  datatype Outcome = Returned(value: Option<string>) | Raised(error: Error)

  /** `self.preset if not preset else preset`: a missing or empty argument falls back to the configured preset. */
  function EffectivePreset(configured: string, preset: Option<PresetArg>): (p: PresetArg)
    ensures preset.None? || preset == Some(StrPreset("")) ==> p == StrPreset(configured)
    ensures preset.Some? && preset != Some(StrPreset("")) ==> p == preset.value
  {
    if preset.None? || preset.value == StrPreset("") then StrPreset(configured) else preset.value
  }

  /** An exception that `parse` catches becomes the return value None; any other escapes. */
  function Catch(e: Error): Outcome
  {
    if e.IsStyledstrError() then Returned(None) else Raised(e)
  }

  /**
   * `parse(tag, preset=preset)` on a parser with fields `respath` and
   * `configured`, up to the final `Message.template(...).format(...)`:
   * the converted template string the token names.
   */
  function ParseSpec(fs: FileSystem, read: (Path, Format) -> Document, respath: Path, configured: string,
                     tag: string, preset: Option<PresetArg>, pick: nat): Outcome
  {
    match Load(fs, read, respath, EffectivePreset(configured, preset))
    case Failure(e) => Catch(e)
    case Success(doc) =>
      match TokenParse(tag, doc, pick)
      case Failure(e) => Catch(e)
      case Success(raw) => Returned(Some(Rewrite(raw)))
  }

  /** `list.sort()` on a list of paths: ascending under `<` on `str`, in place. */
  method SortPaths(a: array<Path>)
    modifies a
    ensures SortedAscending(a[..])
    ensures multiset(a[..]) == multiset(old(a[..]))
  {
    for i := 0 to a.Length
      invariant SortedAscending(a[..i])
      invariant multiset(a[..]) == multiset(old(a[..]))
    {
      Insert(a, i);
    }
    assert a[..a.Length] == a[..];
  }

  /**
   * The state of inserting the element now at `j` into the sorted prefix
   * `s[..i + 1]`: the prefix is sorted apart from position `j`, and the
   * element at `j` is not above anything after it.
   */
  predicate Inserting(s: seq<Path>, i: nat, j: nat)
  {
    && j <= i < |s|
    && (forall p, q :: 0 <= p < q <= i && p != j && q != j ==> !Less(s[q], s[p]))
    && (forall q :: j < q <= i ==> !Less(s[q], s[j]))
  }

  /** One pass of insertion: moves `a[i]` down into the sorted `a[..i]`. */
  method Insert(a: array<Path>, i: nat)
    requires i < a.Length && SortedAscending(a[..i])
    modifies a
    ensures SortedAscending(a[..i + 1])
    ensures multiset(a[..i + 1]) == multiset(old(a[..i + 1]))
    ensures a[i + 1..] == old(a[i + 1..])
    ensures multiset(a[..]) == multiset(old(a[..]))
  {
    ghost var s0 := a[..];
    var j: nat := i;
    assert Inserting(a[..], i, j);
    while j > 0 && Less(a[j], a[j - 1])
      invariant Inserting(a[..], i, j)
      invariant KeepsOutside(a[..], s0, i)
      decreases j
    {
      ghost var t := Swapped(a[..], j);
      SwapDown(a[..], i, j);
      SwapKeepsOutside(a[..], s0, i, j);
      a[j], a[j - 1] := a[j - 1], a[j];
      assert a[..] == t;
      j := j - 1;
    }
    InsertionCloses(a[..], i, j);
    SplitMultiset(a[..], i + 1);
    SplitMultiset(s0, i + 1);
  }

  /** `s` with the elements at `j - 1` and `j` exchanged. */
  function Swapped(s: seq<Path>, j: nat): (t: seq<Path>)
    requires 0 < j < |s|
    ensures |t| == |s| && t[j - 1] == s[j] && t[j] == s[j - 1]
    ensures forall k :: 0 <= k < |s| && k != j - 1 && k != j ==> t[k] == s[k]
  {
    s[j := s[j - 1]][j - 1 := s[j]]
  }

  /** `s` permutes the first `i + 1` elements of `s0` and keeps the rest. */
  predicate KeepsOutside(s: seq<Path>, s0: seq<Path>, i: nat)
  {
    i < |s| == |s0| && multiset(s[..i + 1]) == multiset(s0[..i + 1]) && s[i + 1..] == s0[i + 1..]
  }

  /** Exchanging two neighbours inside the first `i + 1` elements keeps `KeepsOutside`. */
  lemma SwapKeepsOutside(s: seq<Path>, s0: seq<Path>, i: nat, j: nat)
    requires KeepsOutside(s, s0, i) && 0 < j <= i
    ensures KeepsOutside(Swapped(s, j), s0, i)
  {
    var t := Swapped(s, j);
    assert t[..i + 1] == s[..i + 1][j := s[j - 1]][j - 1 := s[j]];
    assert t[i + 1..] == s[i + 1..];
  }

  /** A sequence holds what its two parts hold. */
  lemma SplitMultiset(s: seq<Path>, k: nat)
    requires k <= |s|
    ensures multiset(s) == multiset(s[..k]) + multiset(s[k..])
  {
    assert s == s[..k] + s[k..];
  }

  /** Swapping the moving element with a greater left neighbour keeps the insertion state. */
  lemma SwapDown(s: seq<Path>, i: nat, j: nat)
    requires Inserting(s, i, j) && j > 0 && Less(s[j], s[j - 1])
    ensures Inserting(Swapped(s, j), i, j - 1)
  {
    var t := Swapped(s, j);
    LessAsymmetric(s[j], s[j - 1]);
    forall q | j - 1 < q <= i ensures !Less(t[q], t[j - 1]) {
      if q > j {
        assert !Less(s[q], s[j - 1]);
        NotLessTransitive(s[j], s[j - 1], s[q]);
      }
    }
  }

  /** "Not below" is transitive. */
  lemma NotLessTransitive(x: string, y: string, z: string)
    requires !Less(y, x) && !Less(z, y)
    ensures !Less(z, x)
  {
    LessTotal(x, y);
    if Less(z, x) && x != y {
      LessTransitive(z, x, y);
    }
  }

  /** Once the moving element stops, the first `i + 1` elements are sorted. */
  lemma InsertionCloses(s: seq<Path>, i: nat, j: nat)
    requires Inserting(s, i, j)
    requires j > 0 ==> !Less(s[j], s[j - 1])
    ensures SortedAscending(s[..i + 1])
  {
    forall p, q | 0 <= p < q <= i ensures !Less(s[q], s[p]) {
      if q == j && p < j - 1 {
        NotLessTransitive(s[p], s[j - 1], s[j]);
      }
    }
  }

  // ---------------------------------------------------------------------------
  // Properties of `parse`

  /** A missing or empty `preset` argument behaves as the configured preset given by name. */
  lemma ParseFallsBack(fs: FileSystem, read: (Path, Format) -> Document, respath: Path, configured: string,
                       tag: string, pick: nat)
    ensures ParseSpec(fs, read, respath, configured, tag, None, pick)
            == ParseSpec(fs, read, respath, configured, tag, Some(StrPreset(configured)), pick)
    ensures ParseSpec(fs, read, respath, configured, tag, Some(StrPreset("")), pick)
            == ParseSpec(fs, read, respath, configured, tag, Some(StrPreset(configured)), pick)
  {
  }

  /**
   * `parse` catches exactly the plugin's own errors: it returns None when
   * loading or resolving raised one of them, lets only `IndexError` and
   * `OSError` escape, and otherwise returns the converted text of the token.
   */
  lemma ParseOutcomes(fs: FileSystem, read: (Path, Format) -> Document, respath: Path, configured: string,
                      tag: string, preset: Option<PresetArg>, pick: nat)
    ensures var r := ParseSpec(fs, read, respath, configured, tag, preset, pick);
            var loaded := Load(fs, read, respath, EffectivePreset(configured, preset));
            && (r.Raised? ==> r.error == (if loaded.Failure? then loaded.error else TokenParse(tag, loaded.value, pick).error))
            && (r.Raised? ==> r.error == IndexError || r.error == OSError)
            && (r == Returned(None) <==>
                  if loaded.Failure? then loaded.error.IsStyledstrError()
                  else TokenParse(tag, loaded.value, pick).Failure? && TokenParse(tag, loaded.value, pick).error.IsStyledstrError())
            && (r.Returned? && r.value.Some? <==> loaded.Success? && TokenParse(tag, loaded.value, pick).Success?)
            && (r.Returned? && r.value.Some? ==> r.value.value == Rewrite(TokenParse(tag, loaded.value, pick).value))
  {
  }

  /** In name mode a resource directory that cannot be listed makes `parse` raise `OSError`: `iterdir` fails with an exception the `except` clause does not name. */
  lemma UnlistableDirectoryRaises(fs: FileSystem, read: (Path, Format) -> Document, respath: Path, configured: string,
                                  tag: string, preset: Option<PresetArg>, pick: nat)
    requires IsNameMode(EffectivePreset(configured, preset)) && fs.Listing(respath).None?
    ensures ParseSpec(fs, read, respath, configured, tag, preset, pick) == Raised(OSError)
  {
  }

  /** An empty list at the token's place makes `parse` raise `IndexError`: `random.choice` fails with an exception the `except` clause does not name. */
  lemma EmptyListLeafRaises(fs: FileSystem, read: (Path, Format) -> Document, respath: Path, configured: string,
                            tag: string, preset: Option<PresetArg>, pick: nat, doc: Document)
    requires Load(fs, read, respath, EffectivePreset(configured, preset)) == Success(doc)
    requires Walk(doc, Split(tag, '.')) == Some(List([]))
    ensures ParseSpec(fs, read, respath, configured, tag, preset, pick) == Raised(IndexError)
  {
    assert TokenParse(tag, doc, pick) == Failure(IndexError);
  }

  /**
   * Preset files whose `test.dirname` is the path they were read from when
   * the JSON reader opens them, and empty when the YAML reader does.
   */
  function DirnameReader(): (Path, Format) -> Document
  {
    (p: Path, f: Format) => Mapping([("test", Mapping([("dirname", Str(if f == Json then p else ""))]))])
  }

  /** The resource directory of `JsonPresetPreferred`. */
  function SameNameDirectory(dir: Path): FileSystem
  {
    FileSystem("/", {dir + "/load.json", dir + "/load.yaml"}, map[dir := ["load.yaml", "load.json"]])
  }

  /** In that directory the preset name `load` selects `load.json`. */
  lemma JsonPresetLocated(dir: Path, preset: string)
    requires dir == "/assets/load_json_yaml" && preset == "load"
    ensures Paths.Join(dir, preset + ".json") == dir + "/load.json"
    ensures Locate(SameNameDirectory(dir), dir, StrPreset(preset)) == Success(dir + "/load.json")
  {
    var names := ["load.yaml", "load.json"];
    var fs := SameNameDirectory(dir);
    NotContainsFirst(preset, ".json");
    NotContainsFirst(preset, ".yaml");
    NotContainsFirst(preset, ".yml");
    assert fs.Listing(dir) == Some(names);
    assert names[0] == preset + ".yaml" && names[1] == preset + ".json";
    RelativeName(names[0]);
    RelativeName(names[1]);
    NameModePriority(fs, dir, preset, names);
    assert Paths.Join(dir, preset + ".json") == dir + "/load.json";
  }

  /** ... and reads it with the JSON reader. */
  lemma JsonPresetLoaded(dir: Path, preset: string)
    requires dir == "/assets/load_json_yaml" && preset == "load"
    ensures FormatOf(Suffix(dir + "/load.json")) == Json
    ensures Load(SameNameDirectory(dir), DirnameReader(), dir, StrPreset(preset))
            == Success(Nested(["test", "dirname"], Str(dir + "/load.json")))
  {
    var fs := SameNameDirectory(dir);
    var f := dir + "/load.json";
    JsonPresetLocated(dir, preset);
    JsonSuffix(dir, preset, ".json");
    assert fs.IsFile(f);
    LoadOutcome(fs, DirnameReader(), dir, StrPreset(preset));
    assert f[..1] == dir[..1];
    DirnameReadAbsolute(fs.cwd, f);
  }

  /** Reading an absolute path with the JSON reader stores that path under `test.dirname`. */
  lemma DirnameReadAbsolute(cwd: Path, f: Path)
    requires IsAbsolute(f)
    ensures DirnameReader()(Absolute(cwd, f), Json) == Nested(["test", "dirname"], Str(f))
  {
  }

  /** A `.json` file, in any directory, goes to the JSON reader. */
  lemma JsonSuffix(dir: Path, stem: string, ext: string)
    requires stem != "" && '/' !in stem && ext == ".json"
    ensures FormatOf(Suffix(Paths.Join(dir, stem + ext))) == Json
  {
    assert ext[1..] == "json";
    SuffixOfJoin(dir, stem, ext);
    assert ext[..5][1] != ".yaml"[1] && ext[..4][1] != ".yml"[1];
  }

  /** The path read contains no `$`, so conversion keeps it. */
  lemma JsonPathKept(dir: Path)
    requires dir == "/assets/load_json_yaml"
    ensures Rewrite(dir + "/load.json") == dir + "/load.json"
  {
    assert '$' !in dir + "/load.json";
    RewriteWithoutDollar(dir + "/load.json");
  }

  /**
   * A resource directory holding `load.yaml` and `load.json`, with `load`
   * configured: parsing `test.dirname` reads the `.json` file.
   */
  lemma JsonPresetPreferred(dir: Path, preset: string, tag: string)
    requires dir == "/assets/load_json_yaml" && preset == "load" && tag == "test.dirname"
    ensures ParseSpec(SameNameDirectory(dir), DirnameReader(), dir, preset, tag, None, 0)
            == Returned(Some(dir + "/load.json"))
  {
    JsonPresetLoaded(dir, preset);
    DirnameResolved(tag, dir + "/load.json");
    JsonPathKept(dir);
  }

  /** The tag `test.dirname` reaches the string two mappings deep. */
  lemma DirnameResolved(tag: string, text: string)
    requires tag == "test.dirname"
    ensures TokenParse(tag, Nested(["test", "dirname"], Str(text)), 0) == Success(text)
  {
    var keys := ["test", "dirname"];
    assert Text.Join(keys[1..], ".") == keys[1];
    assert Text.Join(keys, ".") == keys[0] + "." + keys[1];
    assert keys[0] + "." + keys[1] == tag;
    assert '.' !in keys[0] && '.' !in keys[1];
    HierarchicalTag(keys, text, 0);
  }

  class Parser {
    /** `self.respath`: the resource directory. */
    var respath: Path
    /** `self.preset`: the preset used when `parse` is given none. */
    var preset: string

    /**
     * `Parser(**config)`: the driver's configuration, then `config` over it
     * key by key, read into the two fields with their defaults.
     */
    constructor (driver: map<string, string>, config: map<string, string>)
      ensures respath == PathOf(Setting(driver + config, RespathKey, DefaultRespath))
      ensures preset == Setting(driver + config, PresetKey, DefaultPreset)
    {
      var init := driver;
      if |config| > 0 {
        init := driver + config;
      }
      assert init == driver + config;
      respath := PathOf(Setting(init, RespathKey, DefaultRespath));
      preset := Setting(init, PresetKey, DefaultPreset);
    }

    /** `__load_preset(preset)`: the loaded document, or the exception raised. */
    method LoadPreset(fs: FileSystem, read: (Path, Format) -> Document, arg: PresetArg) returns (r: Result<Document, Error>)
      ensures r == Load(fs, read, respath, arg)
    {
      var file: Path;
      if IsNameMode(arg) {
        var listing := fs.Listing(respath);
        if listing.None? {
          return Failure(OSError);
        }
        var names := listing.value;
        var files: seq<Path> := [];
        for i := 0 to |names|
          invariant files == Candidates(arg.name, respath, names[..i])
        {
          assert names[..i + 1][..i] == names[..i];
          if NameMatches(arg.name, names[i]) {
            files := files + [Paths.Join(respath, names[i])];
          }
        }
        assert names[..|names|] == names;
        if |files| == 0 {
          return Failure(NewPresetFileError(Some(arg.name), Some(respath), "", fs.cwd));
        }
        var sorted := new Path[|files|](k requires 0 <= k < |files| => files[k]);
        assert sorted[..] == files;
        SortPaths(sorted);
        SortedHeadIsLeast(files, sorted[..]);
        file := sorted[0];
      } else {
        if arg.PathPreset? {
          file := arg.path;
        } else if fs.IsFile(arg.name) {
          file := arg.name;
        } else {
          file := Paths.Join(respath, arg.name);
        }
        if !fs.Exists(file) {
          var message := MissingFileText(Absolute(fs.cwd, file));
          return Failure(NewPresetFileError(None, None, message, fs.cwd));
        }
      }
      if !fs.IsFile(file) {
        return Failure(OSError);
      }
      r := Success(read(Absolute(fs.cwd, file), FormatOf(Suffix(file))));
    }

    /** `__convert_formatter(contents)`: every `$name$` span becomes `{name}`. */
    static method ConvertFormatter(contents: string) returns (r: string)
      ensures r == Rewrite(contents)
    {
      var split := new string[|ReSplit(contents)|](k requires 0 <= k < |ReSplit(contents)| => ReSplit(contents)[k]);
      ConvertPieces(split);
      ConvertedPiecesJoin(contents, split[..]);
      r := Text.Join(split[..], "");
    }

    /** The loop of `__convert_formatter`: each piece that starts with a match is replaced in place. */
    static method ConvertPieces(split: array<string>)
      modifies split
      ensures forall k :: 0 <= k < split.Length ==> split[k] == ConvertItem(old(split[k]))
    {
      for i := 0 to split.Length
        invariant forall k :: 0 <= k < i ==> split[k] == ConvertItem(old(split[k]))
        invariant forall k :: i <= k < split.Length ==> split[k] == old(split[k])
      {
        var item := split[i];
        if MatchLen(item, 0) > 0 {
          split[i] := "{" + item[1..|item| - 1] + "}";
        }
      }
    }

    /**
     * `parse(tag, preset=preset)`: load the preset (falling back to the
     * configured one), resolve the tag, convert its placeholders; a
     * `PresetFileError` or `TokenError` is logged and gives None.
     */
    method Parse(fs: FileSystem, read: (Path, Format) -> Document, tag: string, preset: Option<PresetArg>, pick: nat)
      returns (r: Outcome)
      ensures r == ParseSpec(fs, read, respath, this.preset, tag, preset, pick)
    {
      var p := if preset.None? || preset.value == StrPreset("") then StrPreset(this.preset) else preset.value;
      var loaded := LoadPreset(fs, read, p);
      if loaded.Failure? {
        if loaded.error.IsStyledstrError() {
          return Returned(None);
        }
        return Raised(loaded.error);
      }
      var raw := TokenParse(tag, loaded.value, pick);
      if raw.Failure? {
        if raw.error.IsStyledstrError() {
          return Returned(None);
        }
        return Raised(raw.error);
      }
      var converted := ConvertFormatter(raw.value);
      r := Returned(Some(converted));
    }
  }
}
