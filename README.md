# nonebot_plugin_styledstr in Dafny

A model of the string parser of nonebot_plugin_styledstr. The plugin looks up a
hierarchical tag such as `test.dirname` in a *preset*: a YAML or JSON file in a
resource directory. It turns legacy `$name$` placeholders in the value into
`{name}` so that the framework's message template can fill them in. The model
covers:

- the parser object and its two configured fields, `respath` and `preset`;
- preset selection (`__load_preset`). A name is looked up in the resource
  directory, where several files may carry it. A path is used directly. The
  error cases are modelled, and so is the choice between the YAML and JSON
  readers;
- tag resolution (`__token_parse`). This is a fold over the `.`-separated
  segments of the tag, then a dispatch on the type of the value reached. A
  list yields a random element;
- legacy placeholder conversion (`__convert_formatter`). The text is split
  with the capturing regex `(\$[a-zA-Z]\w{0,23}\$)`, each matching piece is
  rewritten in place, and the pieces are joined again;
- `parse`. It falls back to the configured preset. It catches the plugin's
  own exceptions and returns None after them. Every other exception
  propagates;
- how the plugin's exceptions choose their messages.

Modules, in dependency order:

- `Wrappers`: Option and Result.
- `Text`: characters, Python string order, `str.split` and `str.join`, decimal integers.
- `Paths`: `pathlib` on string paths.
- `Exception`: exception.py.
- `Token`: `__token_parse`.
- `Placeholder`: `__convert_formatter`.
- `Preset`: `__load_preset`, as specification functions over a file-system value.
- `Styledstr`: the class `Parser` with its fields and methods, and the properties of `parse`.

The file system, the YAML/JSON readers and the random source are parameters:

- a `FileSystem` value: the working directory, the set of regular files, and each directory's listing;
- a reader function from an absolute path and a `Format` to a document;
- a draw `pick`, of which `random.choice` takes the element at `pick % len`.

Where the code and its documentation disagree, the model follows the code:

- Whether a `str` preset names a file is decided by a case-sensitive `re.search` for
  `.json`, `.yaml` or `.yml`.
- The reader is chosen by a case-sensitive `re.match(r'\.ya?ml', suffix)`.
- Name-mode matching ignores case. So a `default.YAML` found for the preset
  `default` is handed to the JSON reader (`Preset.UpperCaseYamlReadAsJson`).
- `parse` returns None after a caught error, not an empty string.
- There is no `ResourcePathError`. `respath` always has a value (`Path()` by
  default, which is truthy). Listing a directory that does not exist raises
  `OSError`, and `parse` does not catch it.
- A list leaf that is empty makes `random.choice` raise `IndexError`. `parse`
  does not catch that either.
- Conversion only turns `$name$` into `{name}`.
  - No identifier is lower-cased.
  - No name is blacklisted.
  - No warning is given about unused placeholders.

  Substitution belongs to `Message.template(...).format(...)`.

## Model

| member | source | states |
|---|---|---|
| `Styledstr.Parser.constructor` | nonebot_plugin_styledstr/styledstr.py:41-48 | the fields come from the driver configuration overridden key by key by the arguments; `respath` defaults to `Path()` and `preset` to `default` |
| `Styledstr.Parser.Parse` | nonebot_plugin_styledstr/styledstr.py:74-84 | the outcome of `parse` is `ParseSpec` of the current fields: load, resolve, convert, with the plugin's errors turned into None |
| `Styledstr.ParseSpec` | nonebot_plugin_styledstr/styledstr.py:74-84 | the outcome of `parse`: load the effective preset, resolve the tag, convert the text; each exception goes through `Catch`. Its properties are stated by `ParseFallsBack` and `ParseOutcomes` |
| `Styledstr.Catch` | nonebot_plugin_styledstr/styledstr.py:79-80 | the `except` clause: `PresetFileError` and `TokenError` give None, anything else propagates (see `ParseOutcomes`) |
| `Styledstr.EffectivePreset` | nonebot_plugin_styledstr/styledstr.py:74 | a missing or empty-string preset argument is replaced by the configured preset; any other argument, including every `Path`, is kept |
| `Styledstr.ParseFallsBack` | nonebot_plugin_styledstr/styledstr.py:74 | parsing with no preset, or with `""`, is parsing with the configured preset name |
| `Styledstr.ParseOutcomes` | nonebot_plugin_styledstr/styledstr.py:76-84 | an exception that escapes is exactly the one loading or resolving raised, and only `IndexError` and `OSError` escape; None is returned exactly when loading or resolving raised a `PresetFileError` or `TokenError`; a string is returned exactly when both succeeded, and it is the converted token text |
| `Styledstr.UnlistableDirectoryRaises` | nonebot_plugin_styledstr/styledstr.py:76-80 | in name mode, a resource directory that cannot be listed (`iterdir` at styledstr.py:109) makes `parse` raise `OSError` |
| `Styledstr.EmptyListLeafRaises` | nonebot_plugin_styledstr/styledstr.py:76-80 | a token naming an empty list (`random.choice` at styledstr.py:192) makes `parse` raise `IndexError` |
| `Styledstr.Setting` | nonebot_plugin_styledstr/config.py:18-19 | one configuration value: the key's value when the configuration holds it, otherwise the field's default (`Path()` or `default`); used by `Parser.constructor` |
| `Styledstr.PathOf` | nonebot_plugin_styledstr/styledstr.py:45-47 | `Path(s)` on the configured text, with `Path("")` as `.`; used by `Parser.constructor` |
| `Styledstr.Parser.LoadPreset` | nonebot_plugin_styledstr/styledstr.py:86-139 | the loop that collects the matching directory entries, the in-place sort and the path-mode branch compute exactly `Preset.Load` |
| `Styledstr.SortPaths` | nonebot_plugin_styledstr/styledstr.py:116 | `files.sort()`: afterwards the array is in ascending string order and is a permutation of what it held |
| `Styledstr.Insert` | nonebot_plugin_styledstr/styledstr.py:116 | one insertion pass extends the sorted prefix by one element, permutes only the first `i + 1` elements and leaves the rest of the array untouched |
| `Styledstr.SwapDown` | nonebot_plugin_styledstr/styledstr.py:116 | swapping the element being inserted with a greater left neighbour keeps the insertion invariant |
| `Styledstr.InsertionCloses` | nonebot_plugin_styledstr/styledstr.py:116 | once the inserted element is not below its left neighbour, the prefix is sorted |
| `Styledstr.Parser.ConvertFormatter` | nonebot_plugin_styledstr/styledstr.py:158-166 | splitting, rewriting every matching piece in place and joining yields `Placeholder.Rewrite` of the input, a left-to-right `$name$` to `{name}` conversion |
| `Styledstr.Parser.ConvertPieces` | nonebot_plugin_styledstr/styledstr.py:162-164 | the enumerate loop replaces, in place, every piece that starts with a match by braces around its name and leaves every other piece as it was |
| `Styledstr.JsonPresetLocated` | tests/test_load_preset.py:12-35 | with `load.yaml` and `load.json` in the resource directory, the preset name `load` selects `load.json` |
| `Styledstr.JsonPresetLoaded` | nonebot_plugin_styledstr/styledstr.py:131-136 | in that directory, the suffix of `load.json` selects the JSON reader, and the document loaded is the one the JSON reader returns for that file (the test reader returns different documents for the two formats) |
| `Styledstr.JsonSuffix` | nonebot_plugin_styledstr/styledstr.py:133-136 | a file named `stem.json`, in any directory, is handed to the JSON reader |
| `Styledstr.JsonPathKept` | nonebot_plugin_styledstr/styledstr.py:83 | the path of the test's `load.json` contains no `$`, so conversion returns it unchanged (the general fact is `Placeholder.RewriteWithoutDollar`) |
| `Styledstr.JsonPresetPreferred` | tests/test_load_preset.py:12-35 | end to end: `parse('test.dirname')` with the preset `load` returns the path of the `.json` file |
| `Styledstr.DirnameResolved` | nonebot_plugin_styledstr/styledstr.py:186-194 | the tag `test.dirname` reaches a string stored two mappings deep and returns it |
| `Styledstr.NotLessTransitive` | nonebot_plugin_styledstr/styledstr.py:116 | "not below" in string order is transitive |
| `Preset.NameModeNotFound` | nonebot_plugin_styledstr/styledstr.py:106-114 | for a name without an extension, lookup fails exactly when no directory entry matches; the error carries the default message naming the preset and the absolute directory, or the generic message when the name is `""` |
| `Preset.Locate` | nonebot_plugin_styledstr/styledstr.py:100-129 | which file `__load_preset` opens, or the exception raised before opening; its name-mode properties are `NameModeNotFound`, `NameModeChoosesFirstSorted`, `NameModeOpensMinimal` and `NameModePriority`, its path-mode ones `PathModeOutcome` |
| `Preset.Load` | nonebot_plugin_styledstr/styledstr.py:86-139 | the document `__load_preset` returns, or its exception; stated by `LoadOutcome` and refined by `Styledstr.Parser.LoadPreset` |
| `Preset.HasPresetExtension` | nonebot_plugin_styledstr/styledstr.py:100-103 | the case-sensitive `re.search` of `str(preset)` for `.json`, `.yaml` or `.yml`; a `str` preset without one is a name (`IsNameMode`), used by `NameModeNotFound` and `PathModeOutcome` |
| `Preset.NameMatches` | nonebot_plugin_styledstr/styledstr.py:107-110 | `re.match(preset + valid_format, name, re.IGNORECASE)`; characterised by `StemWithExtensionMatches` and `UpperCaseYamlReadAsJson` |
| `Preset.Candidates` | nonebot_plugin_styledstr/styledstr.py:108-111 | the comprehension over `iterdir()` keeps at most as many paths as there are entries; `CandidatesMembers` states exactly which |
| `Preset.PathModeTarget` | nonebot_plugin_styledstr/styledstr.py:119-124 | the `else` branch's `preset_file`; stated by `PathModeOutcome` |
| `Preset.FormatOf` | nonebot_plugin_styledstr/styledstr.py:133-136 | `re.match(r'\.ya?ml', suffix)` chooses YAML, anything else JSON; stated by `FormatBySuffix` and `UpperCaseYamlReadAsJson` |
| `Preset.NameModeChoosesFirstSorted` | nonebot_plugin_styledstr/styledstr.py:108-117 | the file chosen is a matching entry under `respath`, and no matching entry sorts before it |
| `Preset.NameModeOpensMinimal` | nonebot_plugin_styledstr/styledstr.py:108-117 | conversely, a matching entry that no matching entry sorts before is the file chosen |
| `Preset.NameModePriority` | nonebot_plugin_styledstr/styledstr.py:106-117 | among files of one preset, `.json` is chosen over `.yaml`, and `.yaml` over `.yml` |
| `Preset.ExtensionPriority` | nonebot_plugin_styledstr/styledstr.py:116 | for every stem, `stem.json` < `stem.yaml` < `stem.yml` in string order |
| `Preset.JoinKeepsOrder` | nonebot_plugin_styledstr/styledstr.py:109-116 | paths of entries of one directory sort as their names do |
| `Preset.CandidatesMembers` | nonebot_plugin_styledstr/styledstr.py:108-111 | a path is collected exactly when it is `respath / name` for an entry whose name starts with the preset followed by `.json`, `.yaml` or `.yml`, ignoring case |
| `Preset.StemWithExtensionMatches` | nonebot_plugin_styledstr/styledstr.py:107-110 | a preset name followed by `.json`, `.yaml` or `.yml` in any letter case is matched |
| `Preset.MissingFileText` | nonebot_plugin_styledstr/styledstr.py:127-128 | the custom message starts with `Preset file ` and contains the absolute path |
| `Preset.PathModeOutcome` | nonebot_plugin_styledstr/styledstr.py:119-129 | a `Path` is used as given; a `str` is used as given when it is a file and under `respath` otherwise; the target is returned exactly when it exists, and otherwise the error names its absolute path |
| `Preset.FormatBySuffix` | nonebot_plugin_styledstr/styledstr.py:133-136 | a file named `stem + ext` in any directory goes to the YAML reader exactly when `ext` starts with `.yaml` or `.yml` |
| `Preset.UpperCaseYamlReadAsJson` | nonebot_plugin_styledstr/styledstr.py:110-136 | `stem.YAML` is accepted in name mode but read as JSON |
| `Preset.LoadOutcome` | nonebot_plugin_styledstr/styledstr.py:126-136 | a selection error propagates unchanged; a selected path that is not a regular file fails with `OSError`; a selected regular file loads successfully, and the document is what the reader for its suffix returns for its absolute path |
| `Token.Lookup` | nonebot_plugin_styledstr/styledstr.py:186-188 | `dict[key]` is missing exactly when no entry has the key, and is otherwise the value of an entry with that key |
| `Token.TokenParse` | nonebot_plugin_styledstr/styledstr.py:169-199 | `__token_parse`: fold, then dispatch on the type reached; its outcomes are stated by `TokenParseOutcomes`, `HierarchicalTag`, `FailedWalkIsTokenError` and the `ListLeaf` lemmas |
| `Token.Walk` | nonebot_plugin_styledstr/styledstr.py:186-187 | `reduce(lambda key, val: key[val], keys, node)`, None for a `KeyError` or `TypeError`; stated by `WalkAppend`, `WalkVisitsEverySegment`, `WalkStopsAtNonMapping` and `WalkNested` |
| `Token.PyStr` | nonebot_plugin_styledstr/styledstr.py:192-194 | `str()` of the value reached: a string is itself, anything else is `Repr`; used by `TokenParseOutcomes` and the `ListLeaf` lemmas |
| `Token.Repr` | nonebot_plugin_styledstr/styledstr.py:192 | Python `repr` of a document, which `str` of a list or dict applies to every element; `Text.NatToStringValue` and `Text.IntToStringInjective` state its integer case |
| `Token.NotScalarText` | nonebot_plugin_styledstr/styledstr.py:196-198 | the message for an unsupported value is non-empty, contains the tag and differs from the missing-token message |
| `Token.Index` | nonebot_plugin_styledstr/styledstr.py:186 | `key[val]`: the entry of a mapping with that key, and a failure (`KeyError` or `TypeError`) for a missing key or a non-mapping; stated by `WalkStopsAtNonMapping` and `Lookup` |
| `Token.IsScalar` | nonebot_plugin_styledstr/styledstr.py:193 | `isinstance(result, (str, int, float, bool))`; used by `TokenParseOutcomes` and `ScalarLeaf` |
| `Token.ScalarLeaf` | nonebot_plugin_styledstr/styledstr.py:193-194 | a tag reaching a string, number or boolean resolves to its `str()` |
| `Token.QuoteRepr` | nonebot_plugin_styledstr/styledstr.py:192 | `repr` of a `str` inside `str()` of a list: single quotes unless the text holds a single quote and no double quote, with backslashes, the chosen quote, newline, carriage return and tab escaped |
| `Token.WalkAppend` | nonebot_plugin_styledstr/styledstr.py:186-187 | folding over `a + b` is folding over `b` from where folding over `a` ends |
| `Token.WalkVisitsEverySegment` | nonebot_plugin_styledstr/styledstr.py:186-187 | a successful fold reaches a mapping holding the next segment at every step |
| `Token.WalkStopsAtNonMapping` | nonebot_plugin_styledstr/styledstr.py:186-189 | indexing a non-mapping on the way makes the whole fold fail |
| `Token.WalkNested` | nonebot_plugin_styledstr/styledstr.py:186-187 | the fold over n keys reaches the leaf stored n mappings deep |
| `Token.HierarchicalTag` | nonebot_plugin_styledstr/styledstr.py:186-194 | the tag `k1.k2...kn`, dot-free segments joined by `.`, resolves to the string stored under that key path |
| `Token.FailedWalkIsTokenError` | nonebot_plugin_styledstr/styledstr.py:188-189 | a `KeyError` or `TypeError` in the fold is a `TokenError` with the default message, which contains the tag |
| `Token.ListLeafDraw` | nonebot_plugin_styledstr/styledstr.py:191-192 | a non-empty list leaf yields `str` of the element the draw selects |
| `Token.ListLeafMembership` | nonebot_plugin_styledstr/styledstr.py:191-192 | whatever the draw, the result is `str` of one of the list's elements |
| `Token.ListLeafEveryElement` | nonebot_plugin_styledstr/styledstr.py:191-192 | every element of a list leaf is the result of some draw |
| `Token.TokenParseOutcomes` | nonebot_plugin_styledstr/styledstr.py:185-199 | success exactly for a scalar or a non-empty list; `IndexError` exactly for an empty list; a mapping or None gives the not-a-scalar `TokenError`; every other failure is a `TokenError` naming the tag |
| `Placeholder.MatchLen` | nonebot_plugin_styledstr/styledstr.py:158 | a match of the placeholder pattern is 3 to 26 characters long and stays inside the text |
| `Placeholder.SplitFrom` | nonebot_plugin_styledstr/styledstr.py:160 | the scan `re.split` makes with a capturing pattern, from a given position; stated by `SplitFromShape` and `ConvertedSplitFrom` |
| `Placeholder.ReSplit` | nonebot_plugin_styledstr/styledstr.py:160 | `re.split(placeholder, contents)`; stated by `ReSplitShape` and `ConvertedReSplit` |
| `Placeholder.ConvertItem` | nonebot_plugin_styledstr/styledstr.py:163-164 | the loop body on one piece: braces around `item[1:-1]` when the pattern matches at its start; stated by `ConvertAllAt` and `ConvertedPiecesJoin` |
| `Placeholder.Rewrite` | nonebot_plugin_styledstr/styledstr.py:158-166 | an independent left-to-right definition of the conversion; `ConvertedReSplit` proves the split-convert-join equal to it, and `RewriteWithoutPlaceholder`, `RewriteSpan`, `RewriteKeepsLiteral` and the `RewriteKeeps` lemmas state what it does |
| `Placeholder.WordRunMaximal` | nonebot_plugin_styledstr/styledstr.py:158 | the `\w` run scanned is made of word characters and is followed by a non-word character or the end |
| `Placeholder.MatchLenSound` | nonebot_plugin_styledstr/styledstr.py:158 | what the matcher finds is a `$name$` span: a letter, at most 23 more word characters, between two `$` |
| `Placeholder.MatchLenUnique` | nonebot_plugin_styledstr/styledstr.py:158 | conversely, every `$name$` span at a position is exactly what the matcher finds there |
| `Placeholder.ConvertAllAt` | nonebot_plugin_styledstr/styledstr.py:162-164 | the loop body is applied to each piece in its own place |
| `Placeholder.LiteralHasNoPlaceholder` | nonebot_plugin_styledstr/styledstr.py:160 | a stretch the scanner passed over contains no `$name$` span |
| `Placeholder.SplitFromShape` | nonebot_plugin_styledstr/styledstr.py:160 | the scanner's pieces alternate between placeholder-free text and spans, and they join back to the text scanned |
| `Placeholder.ReSplitShape` | nonebot_plugin_styledstr/styledstr.py:160 | `re.split` with the capturing group gives literal, span, literal, ..., literal, and joining the pieces restores the text |
| `Placeholder.ConvertedSplitFrom` | nonebot_plugin_styledstr/styledstr.py:160-166 | converting and joining the pieces from any scan position equals converting the remaining text |
| `Placeholder.ConvertedReSplit` | nonebot_plugin_styledstr/styledstr.py:160-166 | split, convert piece by piece, join equals the left-to-right conversion `Rewrite` |
| `Placeholder.ConvertedPiecesJoin` | nonebot_plugin_styledstr/styledstr.py:160-166 | any list that holds, at each index, the loop body applied to that piece of the split joins to the rewrite of the input |
| `Placeholder.RewriteKeepsLiteral` | nonebot_plugin_styledstr/styledstr.py:160-166 | characters at which no span starts are copied to the output unchanged and in order |
| `Placeholder.RewriteWithoutPlaceholder` | nonebot_plugin_styledstr/styledstr.py:158-166 | text holding no `$name$` span is left unchanged |
| `Placeholder.RewriteWithoutDollar` | nonebot_plugin_styledstr/styledstr.py:158-166 | text without a `$` is left unchanged |
| `Placeholder.RewriteSpan` | nonebot_plugin_styledstr/styledstr.py:163-164 | a leading `$name$` becomes `{name}` and conversion continues after it |
| `Placeholder.RewriteKeepsDollarBeforeNonLetter` | nonebot_plugin_styledstr/styledstr.py:158 | `$` followed by something other than an ASCII letter (`$_x$`, `$1x$`) is kept |
| `Placeholder.RewriteKeepsLongName` | nonebot_plugin_styledstr/styledstr.py:158 | a name of more than 24 characters is not converted |
| `Exception.PresetNotFoundText` | nonebot_plugin_styledstr/exception.py:53-55 | the default message names the quoted preset and the directory, and differs from the generic message |
| `Exception.NewPresetFileError` | nonebot_plugin_styledstr/exception.py:45-59 | a non-empty custom message is used verbatim; otherwise a truthy preset with a resource path gives the default message with the absolute path; otherwise the generic message |
| `Exception.TokenNotFoundText` | nonebot_plugin_styledstr/exception.py:76-78 | the default message holds the token between a fixed head and a fixed tail, so the token can be read back from it |
| `Exception.NewTokenError` | nonebot_plugin_styledstr/exception.py:75-78 | a non-empty custom message is used verbatim, otherwise the default message for the token |
| `Exception.TokenErrorNamesItsToken` | nonebot_plugin_styledstr/exception.py:16-23 | two default `TokenError` messages are equal only for the same token |
| `Text.Lower` | nonebot_plugin_styledstr/styledstr.py:110 | `re.IGNORECASE` compares ASCII-lower-cased strings of the same length |
| `Text.Least` | nonebot_plugin_styledstr/styledstr.py:116-117 | `files.sort(); files[0]`: the smallest element of a non-empty list; stated by `LeastIsMinimum` and `SortedHeadIsLeast` |
| `Text.Join` | nonebot_plugin_styledstr/styledstr.py:166 | `sep.join(parts)` (`''.join` of the converted pieces); stated by `JoinSplit`, `SplitJoin` and `Placeholder.ConvertedReSplit` |
| `Text.LeastIsMinimum` | nonebot_plugin_styledstr/styledstr.py:116-117 | the element selected is in the list and nothing in the list sorts before it |
| `Text.SortedHeadIsLeast` | nonebot_plugin_styledstr/styledstr.py:116-117 | the first element of any sorted permutation of the list is that element |
| `Text.LessTotal` | nonebot_plugin_styledstr/styledstr.py:116 | Python string `<` relates any two distinct strings one way |
| `Text.LessTransitive` | nonebot_plugin_styledstr/styledstr.py:116 | Python string `<` is transitive |
| `Text.LessCommonPrefix` | nonebot_plugin_styledstr/styledstr.py:116 | a common prefix does not change the order of two strings |
| `Text.Less` | nonebot_plugin_styledstr/styledstr.py:116 | Python `<` on `str`, code point by code point with a proper prefix first; stated by `LessTotal`, `LessTransitive`, `LessCommonPrefix` |
| `Text.Split` | nonebot_plugin_styledstr/styledstr.py:186 | `tag.split('.')` gives at least one part; `JoinSplit` and `SplitJoin` state the round trips |
| `Text.JoinSplit` | nonebot_plugin_styledstr/styledstr.py:186 | joining `tag.split('.')` with `.` restores the tag |
| `Text.SplitJoin` | nonebot_plugin_styledstr/styledstr.py:186 | splitting dot-free segments joined by `.` gives the segments back |
| `Text.NatToStringValue` | nonebot_plugin_styledstr/styledstr.py:194 | `str()` of a non-negative integer is its decimal digits |
| `Text.NatToString` | nonebot_plugin_styledstr/styledstr.py:194 | `str()` of a non-negative `int`, most significant digit first; stated by `NatToStringValue` |
| `Text.IntToString` | nonebot_plugin_styledstr/styledstr.py:194 | `str()` of an `int`, with `-` before a negative one; stated by `IntToStringInjective` |
| `Text.IntToStringInjective` | nonebot_plugin_styledstr/styledstr.py:194 | distinct integers have distinct `str()` |
| `Preset.IsNameMode` | nonebot_plugin_styledstr/styledstr.py:104-106 | the name branch: a `str` containing none of `.json`, `.yaml`, `.yml`; used by `Locate`, `UnlistableDirectoryRaises` and `NameModeNotFound` |
| `Preset.FileSystem.IsFile` | nonebot_plugin_styledstr/styledstr.py:123 | `Path(p).is_file()`, resolved against the working directory |
| `Preset.FileSystem.Exists` | nonebot_plugin_styledstr/styledstr.py:126 | `preset_file.exists()`: a regular file or a directory |
| `Preset.FileSystem.Listing` | nonebot_plugin_styledstr/styledstr.py:109 | `respath.iterdir()` by name, or None (an `OSError`) when `respath` is not a directory; used by `Locate` and `UnlistableDirectoryRaises` |
| `Paths.NameOfJoin` | nonebot_plugin_styledstr/styledstr.py:109-110 | an entry yielded by `iterdir()` has its own name as `.name` |
| `Paths.SuffixOfJoin` | nonebot_plugin_styledstr/styledstr.py:133 | a file named `stem + ext` has `ext` as its `.suffix` |
| `Paths.Join` | nonebot_plugin_styledstr/styledstr.py:109-110 | `respath / name`: an absolute name replaces the base, `Path()` and `Path("")` give the name itself; stated by `NameOfJoin` and `Preset.JoinKeepsOrder` |
| `Paths.Absolute` | nonebot_plugin_styledstr/styledstr.py:127 | `p.absolute()` for the working directory `cwd`; used in `MissingFileText` and `NewPresetFileError` |
| `Paths.Name` | nonebot_plugin_styledstr/styledstr.py:110 | `p.name`, the text after the last `/`; stated by `NameOfJoin` |
| `Paths.Suffix` | nonebot_plugin_styledstr/styledstr.py:133 | `p.suffix`, the last `.`-extension of the name; stated by `SuffixOfJoin` |

## Left out

- Reading files: `yaml.safe_load` and `json.load` are the `read` parameter. The
  model chooses the reader, but parse errors in the file are not modelled, and
  neither are YAML types other than mappings, lists, strings, numbers, booleans and null.
- `Message.template(raw).format(*args, **kwargs)` (styledstr.py:84) is a
  framework call. `Parse` returns the converted template string instead, and
  the positional and keyword placeholder values are not parameters.
- Logging: `err.log()`, `logger.debug` and `logger.info`.
- The `deprecated` decorator on `__convert_formatter` and its warning.
- Configuration goes through the nonebot driver and pydantic. It is modelled as
  two string-to-string maps. Value coercion by pydantic and `Path` normalisation
  (trailing slashes, `//`, `..`) are not modelled, except that `Path("")` is `.`.
- Preset documents are read with string keys only. PyYAML reads keys such as
  `1:`, `yes:` and `null:` as int, bool and None. Indexing such a mapping with a
  `str` segment raises `KeyError`, and `str()` of it shows those keys unquoted.
  Neither is modelled: every key is a string here.
- Token.Lookup: a mapping may hold a key twice, and `Lookup` then returns the first
  entry. A `dict` from `json.load` or `yaml.safe_load` holds each key once (both
  readers keep the last value of a repeated key), so documents are assumed to
  have distinct keys; the model does not enforce it.
- The random source: the draw is a parameter `pick`; its distribution is not modelled.
- Python `str()` of a float is kept as the text it produces. Unicode escapes in
  `repr` of non-printable characters are not modelled.
- `\w` and case folding are modelled on ASCII only. The preset name is put into
  the regular expression unescaped (styledstr.py:107); the model assumes it holds
  no regular-expression metacharacters and matches it literally.
- Path comparison in `files.sort()` is modelled as `str` order on the whole
  path. The entries share the `respath` prefix, so this is their name order
  (`Preset.JoinKeepsOrder`), which is also the order `pathlib` gives.
- The file system is a snapshot. `Path.is_file`, `exists`, `iterdir` and `open`
  see the same state, and races between them are not modelled. So are
  permissions, symbolic links, and directories whose listings disagree with
  `files`.
