/**
 * Preset selection (`Parser.__load_preset`): deciding between a preset name
 * and a preset path, choosing among the files of the resource directory that
 * carry the name, the error cases, and the choice between the YAML and JSON
 * readers. The file system is a value: which regular files exist, and what
 * `iterdir()` lists for each directory.
 */
module Preset {
  import opened Wrappers
  import opened Text
  import opened Paths
  import opened Exception
  import opened Token

  /** The `preset` argument: a `str` or a `pathlib.Path`. */
  datatype PresetArg = StrPreset(name: string) | PathPreset(path: Path)

  /** The reader `__load_preset` opens the file with. */
  datatype Format = Json | Yaml

  /**
   * What the core can observe of the file system. `files` holds the absolute
   * paths of the regular files and `dirs` maps the absolute path of each
   * directory to the names `iterdir()` yields for it, in that order.
   */
  datatype FileSystem = FileSystem(cwd: Path, files: set<Path>, dirs: map<Path, seq<string>>)
  {
    /** `Path(p).is_file()`, relative paths taken from the working directory. */
    predicate IsFile(p: Path) { Absolute(cwd, p) in files }

    /** `Path(p).exists()`: a regular file or a directory. */
    predicate Exists(p: Path) { Absolute(cwd, p) in files || Absolute(cwd, p) in dirs }

    /** `list(Path(p).iterdir())` by name, or None when `p` is not a directory (an `OSError`). */
    function Listing(p: Path): Option<seq<string>>
    {
      var a := Absolute(cwd, p);
      if a in dirs then Some(dirs[a]) else None
    }
  }

  /** `re.search(r'\.(?:json|ya?ml)', s)` succeeds: the string names a preset file. */
  predicate HasPresetExtension(s: string)
  {
    Contains(s, ".json") || Contains(s, ".yaml") || Contains(s, ".yml")
  }

  /**
   * `re.match(preset + r'\.(?:json|ya?ml)', name, re.IGNORECASE)` succeeds:
   * the name starts with the preset and one of the extensions, ignoring case.
   */
  predicate NameMatches(preset: string, name: string)
  {
    var stem := Lower(preset);
    var n := Lower(name);
    StartsWith(n, stem + ".json") || StartsWith(n, stem + ".yaml") || StartsWith(n, stem + ".yml")
  }

  /**
   * The list comprehension over `respath.iterdir()`: the matching entries,
   * as paths under `respath`, in listing order.
   */
  function Candidates(preset: string, respath: Path, names: seq<string>): (files: seq<Path>)
    ensures |files| <= |names|
    decreases |names|
  {
    if |names| == 0 then []
    else
      var last := names[|names| - 1];
      Candidates(preset, respath, names[..|names| - 1])
        + (if NameMatches(preset, last) then [Paths.Join(respath, last)] else [])
  }

  /** The custom message of a missing preset file. */
  function MissingFileText(absolute: Path): (r: string)
    ensures StartsWith(r, "Preset file ")
    ensures Contains(r, absolute)
  {
    ContainsMiddle("Preset file ", absolute, " does not exist.");
    "Preset file " + absolute + " does not exist."
  }

  /** The `preset_file` the `else` branch settles on before checking that it exists. */
  function PathModeTarget(fs: FileSystem, respath: Path, arg: PresetArg): Path
  {
    match arg
    case PathPreset(p) => p
    case StrPreset(s) => if fs.IsFile(s) then s else Paths.Join(respath, s)
  }

  /** The `preset` argument is a name to look up: a `str` naming no file extension. */
  predicate IsNameMode(arg: PresetArg)
  {
    arg.StrPreset? && !HasPresetExtension(arg.name)
  }

  /** Which file `__load_preset` opens, or the exception it raises before opening one. */
  function Locate(fs: FileSystem, respath: Path, arg: PresetArg): Result<Path, Error>
  {
    if IsNameMode(arg) then
      match fs.Listing(respath)
      case None => Failure(OSError)
      case Some(names) =>
        var files := Candidates(arg.name, respath, names);
        if |files| == 0 then Failure(NewPresetFileError(Some(arg.name), Some(respath), "", fs.cwd))
        else Success(Least(files))
    else
      var f := PathModeTarget(fs, respath, arg);
      if !fs.Exists(f) then Failure(NewPresetFileError(None, None, MissingFileText(Absolute(fs.cwd, f)), fs.cwd))
      else Success(f)
  }

  /** `re.match(r'\.ya?ml', preset_file.suffix)`: case-sensitive, at the start of the suffix. */
  function FormatOf(suffix: string): Format
  {
    if StartsWith(suffix, ".yaml") || StartsWith(suffix, ".yml") then Yaml else Json
  }

  /**
   * `__load_preset(preset)`: the document the chosen reader returns. Opening
   * anything but a regular file is an `OSError`. `read` stands for
   * `yaml.safe_load` / `json.load` on the file at an absolute path.
   */
  function Load(fs: FileSystem, read: (Path, Format) -> Document, respath: Path, arg: PresetArg): Result<Document, Error>
  {
    match Locate(fs, respath, arg)
    case Failure(e) => Failure(e)
    case Success(f) =>
      if !fs.IsFile(f) then Failure(OSError)
      else Success(read(Absolute(fs.cwd, f), FormatOf(Suffix(f))))
  }

  // ---------------------------------------------------------------------------
  // Name mode

  /** A path is a candidate exactly when it is a matching entry of the listing, placed under `respath`. */
  lemma {:induction false} CandidatesMembers(preset: string, respath: Path, names: seq<string>, f: Path)
    ensures f in Candidates(preset, respath, names) <==>
            exists k :: 0 <= k < |names| && NameMatches(preset, names[k]) && f == Paths.Join(respath, names[k])
    decreases |names|
  {
    if |names| > 0 {
      var init := names[..|names| - 1];
      CandidatesMembers(preset, respath, init, f);
      if f in Candidates(preset, respath, init) {
        var k :| 0 <= k < |init| && NameMatches(preset, init[k]) && f == Paths.Join(respath, init[k]);
        assert names[k] == init[k];
      }
      if exists k :: 0 <= k < |names| && NameMatches(preset, names[k]) && f == Paths.Join(respath, names[k]) {
        var k :| 0 <= k < |names| && NameMatches(preset, names[k]) && f == Paths.Join(respath, names[k]);
        if k < |init| { assert init[k] == names[k]; }
      }
    }
  }

  /** The error of name mode: raised exactly when no entry matches, and it names the preset and the directory. */
  lemma NameModeNotFound(fs: FileSystem, respath: Path, preset: string, names: seq<string>)
    requires !HasPresetExtension(preset)
    requires fs.Listing(respath) == Some(names)
    ensures Locate(fs, respath, StrPreset(preset)).Failure? <==> forall k :: 0 <= k < |names| ==> !NameMatches(preset, names[k])
    ensures preset != "" && Locate(fs, respath, StrPreset(preset)).Failure? ==>
              Locate(fs, respath, StrPreset(preset)).error == PresetFileError(PresetNotFoundText(preset, Absolute(fs.cwd, respath)))
    ensures preset == "" && Locate(fs, respath, StrPreset(preset)).Failure? ==>
              Locate(fs, respath, StrPreset(preset)).error == PresetFileError(PresetGenericText)
  {
    var files := Candidates(preset, respath, names);
    if |files| > 0 {
      CandidatesMembers(preset, respath, names, files[0]);
    } else {
      forall k | 0 <= k < |names| ensures !NameMatches(preset, names[k]) {
        CandidatesMembers(preset, respath, names, Paths.Join(respath, names[k]));
      }
    }
  }

  /**
   * The success of name mode: the file opened is a matching entry, and no
   * other matching entry sorts before it (what `files.sort(); files[0]` gives).
   */
  lemma NameModeChoosesFirstSorted(fs: FileSystem, respath: Path, preset: string, names: seq<string>)
    requires !HasPresetExtension(preset)
    requires fs.Listing(respath) == Some(names)
    requires Locate(fs, respath, StrPreset(preset)).Success?
    ensures exists k :: 0 <= k < |names| && NameMatches(preset, names[k])
              && Locate(fs, respath, StrPreset(preset)).value == Paths.Join(respath, names[k])
    ensures forall k :: 0 <= k < |names| && NameMatches(preset, names[k]) ==>
              !Less(Paths.Join(respath, names[k]), Locate(fs, respath, StrPreset(preset)).value)
  {
    var files := Candidates(preset, respath, names);
    LeastIsMinimum(files);
    CandidatesMembers(preset, respath, names, Least(files));
    forall k | 0 <= k < |names| && NameMatches(preset, names[k])
      ensures !Less(Paths.Join(respath, names[k]), Least(files))
    {
      CandidatesMembers(preset, respath, names, Paths.Join(respath, names[k]));
    }
  }

  /** Entries of one directory sort as their names do. */
  lemma JoinKeepsOrder(respath: Path, a: string, b: string)
    requires a != "" && b != "" && !IsAbsolute(a) && !IsAbsolute(b)
    ensures Less(Paths.Join(respath, a), Paths.Join(respath, b)) <==> Less(a, b)
  {
    if respath == "." || respath == "" {
    } else if |respath| > 0 && respath[|respath| - 1] == '/' {
      LessCommonPrefix(respath, a, b);
    } else {
      LessCommonPrefix(respath + "/", a, b);
    }
  }

  /** The order of the three extensions of one preset: `.json` before `.yaml` before `.yml`. */
  lemma ExtensionPriority(stem: string)
    ensures Less(stem + ".json", stem + ".yaml")
    ensures Less(stem + ".yaml", stem + ".yml")
    ensures Less(stem + ".json", stem + ".yml")
  {
    LessCommonPrefix(stem, ".json", ".yaml");
    LessCommonPrefix(stem, ".yaml", ".yml");
    LessCommonPrefix(stem, ".json", ".yml");
    assert Less(".json", ".yaml") by { assert ".json"[1..] == "json" && ".yaml"[1..] == "yaml"; }
    assert Less(".yaml", ".yml") by {
      assert ".yaml"[1..] == "yaml" && ".yml"[1..] == "yml";
      assert "yaml"[1..] == "aml" && "yml"[1..] == "ml";
    }
    assert Less(".json", ".yml") by { assert ".json"[1..] == "json" && ".yml"[1..] == "yml"; }
  }

  /** The files a preset may be stored in. */
  predicate IsPresetFileOf(stem: string, name: string)
  {
    name == stem + ".json" || name == stem + ".yaml" || name == stem + ".yml"
  }

  /** Directory entries: non-empty names that do not start at the root. */
  predicate EntryNames(names: seq<string>)
  {
    forall k :: 0 <= k < |names| ==> names[k] != "" && !IsAbsolute(names[k])
  }

  /** A matching entry that no other matching entry sorts before is the file opened. */
  lemma NameModeOpensMinimal(fs: FileSystem, respath: Path, preset: string, names: seq<string>, first: string)
    requires !HasPresetExtension(preset)
    requires fs.Listing(respath) == Some(names) && EntryNames(names)
    requires first in names && NameMatches(preset, first)
    requires forall k :: 0 <= k < |names| && NameMatches(preset, names[k]) ==> !Less(names[k], first)
    ensures Locate(fs, respath, StrPreset(preset)) == Success(Paths.Join(respath, first))
  {
    var i :| 0 <= i < |names| && names[i] == first;
    CandidatesMembers(preset, respath, names, Paths.Join(respath, first));
    NameModeChoosesFirstSorted(fs, respath, preset, names);
    var f := Locate(fs, respath, StrPreset(preset)).value;
    var k :| 0 <= k < |names| && NameMatches(preset, names[k]) && f == Paths.Join(respath, names[k]);
    assert !Less(Paths.Join(respath, first), f);
    JoinKeepsOrder(respath, names[k], first);
    LessTotal(Paths.Join(respath, first), f);
  }

  /** A preset name followed by an extension, in any case, is matched in name mode. */
  lemma StemWithExtensionMatches(stem: string, ext: string)
    requires Lower(ext) == ".json" || Lower(ext) == ".yaml" || Lower(ext) == ".yml"
    ensures NameMatches(stem, stem + ext)
  {
    LowerConcat(stem, ext);
    var n := Lower(stem + ext);
    assert n[..|n|] == n;
  }

  /**
   * With `.json`, `.yaml` and `.yml` files of the preset side by side, the
   * `.json` one is opened when there is one, else the `.yaml` one, else the
   * `.yml` one.
   */
  lemma NameModePriority(fs: FileSystem, respath: Path, preset: string, names: seq<string>)
    requires !HasPresetExtension(preset)
    requires fs.Listing(respath) == Some(names) && EntryNames(names)
    requires forall k :: 0 <= k < |names| && NameMatches(preset, names[k]) ==> IsPresetFileOf(preset, names[k])
    ensures preset + ".json" in names ==>
              Locate(fs, respath, StrPreset(preset)) == Success(Paths.Join(respath, preset + ".json"))
    ensures preset + ".json" !in names && preset + ".yaml" in names ==>
              Locate(fs, respath, StrPreset(preset)) == Success(Paths.Join(respath, preset + ".yaml"))
    ensures preset + ".json" !in names && preset + ".yaml" !in names && preset + ".yml" in names ==>
              Locate(fs, respath, StrPreset(preset)) == Success(Paths.Join(respath, preset + ".yml"))
  {
    var json, yaml, yml := preset + ".json", preset + ".yaml", preset + ".yml";
    ExtensionPriority(preset);
    assert Lower(".json") == ".json";
    assert Lower(".yaml") == ".yaml";
    assert Lower(".yml") == ".yml";
    if json in names {
      StemWithExtensionMatches(preset, ".json");
      LessIrreflexive(json);
      LessAsymmetric(json, yaml);
      LessAsymmetric(json, yml);
      NameModeOpensMinimal(fs, respath, preset, names, json);
    } else if yaml in names {
      StemWithExtensionMatches(preset, ".yaml");
      LessIrreflexive(yaml);
      LessAsymmetric(yaml, yml);
      NameModeOpensMinimal(fs, respath, preset, names, yaml);
    } else if yml in names {
      StemWithExtensionMatches(preset, ".yml");
      LessIrreflexive(yml);
      NameModeOpensMinimal(fs, respath, preset, names, yml);
    }
  }

  // ---------------------------------------------------------------------------
  // Path mode

  /**
   * In path mode: a `Path` is used as given, a `str` as given when it is a
   * file and under `respath` otherwise; a target that does not exist is a
   * `PresetFileError` naming its absolute path, and is otherwise the file.
   */
  lemma PathModeOutcome(fs: FileSystem, respath: Path, arg: PresetArg)
    requires !IsNameMode(arg)
    ensures arg.PathPreset? ==> PathModeTarget(fs, respath, arg) == arg.path
    ensures arg.StrPreset? && fs.IsFile(arg.name) ==> PathModeTarget(fs, respath, arg) == arg.name
    ensures arg.StrPreset? && !fs.IsFile(arg.name) ==> PathModeTarget(fs, respath, arg) == Paths.Join(respath, arg.name)
    ensures fs.Exists(PathModeTarget(fs, respath, arg)) <==> Locate(fs, respath, arg) == Success(PathModeTarget(fs, respath, arg))
    ensures !fs.Exists(PathModeTarget(fs, respath, arg)) ==>
              Locate(fs, respath, arg).Failure? && Locate(fs, respath, arg).error.PresetFileError? &&
              StartsWith(Locate(fs, respath, arg).error.message, "Preset file ") &&
              Contains(Locate(fs, respath, arg).error.message, Absolute(fs.cwd, PathModeTarget(fs, respath, arg)))
  {
  }

  // ---------------------------------------------------------------------------
  // Reading

  /** A file of `name + ext` in any directory is read as YAML exactly for `.yaml` and `.yml`. */
  lemma FormatBySuffix(dir: Path, stem: string, ext: string)
    requires stem != "" && '/' !in stem
    requires |ext| >= 2 && ext[0] == '.' && '/' !in ext && '.' !in ext[1..]
    ensures FormatOf(Suffix(Paths.Join(dir, stem + ext))) == Yaml <==> StartsWith(ext, ".yaml") || StartsWith(ext, ".yml")
  {
    SuffixOfJoin(dir, stem, ext);
  }

  /** The facts about the extension `.YAML` that `UpperCaseYamlReadAsJson` needs. */
  lemma UpperYamlExtension(ext: string)
    requires ext == ".YAML"
    ensures Lower(ext) == ".yaml"
    ensures !StartsWith(ext, ".yaml") && !StartsWith(ext, ".yml")
    ensures |ext| >= 2 && ext[0] == '.' && '/' !in ext && '.' !in ext[1..]
  {
    var l := Lower(ext);
    assert l[0] == '.' && l[1] == 'y' && l[2] == 'a' && l[3] == 'm' && l[4] == 'l';
    assert ext[..5][1] != ".yaml"[1];
    assert ext[..4][1] != ".yml"[1];
  }

  /**
   * The suffix test is case-sensitive while name mode ignores case: a
   * `.YAML` file found for a preset name is handed to the JSON reader.
   */
  lemma UpperCaseYamlReadAsJson(dir: Path, stem: string, ext: string)
    requires stem != "" && '/' !in stem && ext == ".YAML"
    ensures NameMatches(stem, stem + ext)
    ensures FormatOf(Suffix(Paths.Join(dir, stem + ext))) == Json
  {
    UpperYamlExtension(ext);
    StemWithExtensionMatches(stem, ext);
    SuffixOfJoin(dir, stem, ext);
  }

  /** Loading fails exactly when locating fails or the located path is not a regular file; it reads that file otherwise. */
  lemma LoadOutcome(fs: FileSystem, read: (Path, Format) -> Document, respath: Path, arg: PresetArg)
    ensures Locate(fs, respath, arg).Failure? ==> Load(fs, read, respath, arg) == Failure(Locate(fs, respath, arg).error)
    ensures Locate(fs, respath, arg).Success? && !fs.IsFile(Locate(fs, respath, arg).value) ==>
              Load(fs, read, respath, arg) == Failure(OSError)
    ensures Locate(fs, respath, arg).Success? && fs.IsFile(Locate(fs, respath, arg).value) ==>
              Load(fs, read, respath, arg) ==
                Success(read(Absolute(fs.cwd, Locate(fs, respath, arg).value), FormatOf(Suffix(Locate(fs, respath, arg).value))))
    ensures Load(fs, read, respath, arg).Success? ==>
              Locate(fs, respath, arg).Success? &&
              var f := Locate(fs, respath, arg).value;
              Load(fs, read, respath, arg).value == read(Absolute(fs.cwd, f), FormatOf(Suffix(f)))
  {
  }
}
