/**
 * The plugin's exceptions (exception.py). `StyledstrError` keeps the text it
 * is given in `.message`; `PresetFileError` and `TokenError` only choose that
 * text. The last two constructors of `Error` are the Python built-in
 * exceptions that the core lets escape.
 */
module Exception {
  import opened Wrappers
  import opened Text
  import opened Paths

  datatype Error =
    | PresetFileError(message: string)
    | TokenError(message: string)
      /** `random.choice` on an empty list. */
    | IndexError
      /** A directory that cannot be listed or a preset file that cannot be opened. */
    | OSError
  {
    /** The errors `parse` catches: the subclasses of `StyledstrError`. */
    predicate IsStyledstrError() { PresetFileError? || TokenError? }
  }

  /** Python truthiness of an optional string. */
  predicate Truthy(s: Option<string>) { s.Some? && s.value != "" }

  const PresetGenericText := "Cannot find any valid file for the indicated preset."

  /** The default message of `PresetFileError`: names the preset and the directory. */
  function PresetNotFoundText(preset: string, dir: Path): (r: string)
    ensures StartsWith(r, "Cannot find any valid file for preset ")
    ensures Contains(r, "\"" + preset + "\"")
    ensures Contains(r, dir)
    ensures r != PresetGenericText
  {
    var head := "Cannot find any valid file for preset ";
    var quoted := "\"" + preset + "\"";
    var r := head + quoted + " from the resource path " + dir + ".";
    assert r == head + quoted + (" from the resource path " + dir + ".");
    ContainsMiddle(head, quoted, " from the resource path " + dir + ".");
    assert r == (head + quoted + " from the resource path ") + dir + ".";
    ContainsMiddle(head + quoted + " from the resource path ", dir, ".");
    assert r[..|head|] == head;
    assert r[31] == 'p' && PresetGenericText[31] == 't';
    r
  }

  /**
   * `PresetFileError(preset, respath, message=message)`: a non-empty custom
   * message verbatim; else, when both `preset` and `respath` are truthy, the
   * default text with `respath.absolute()`; else the generic text.
   */
  function NewPresetFileError(preset: Option<string>, respath: Option<Path>, message: string, cwd: Path): (e: Error)
    ensures e.PresetFileError?
    ensures message != "" ==> e.message == message
    ensures message == "" && Truthy(preset) && respath.Some? ==>
              e.message == PresetNotFoundText(preset.value, Absolute(cwd, respath.value))
    ensures message == "" && !(Truthy(preset) && respath.Some?) ==> e.message == PresetGenericText
  {
    if message != "" then PresetFileError(message)
    else if Truthy(preset) && respath.Some? then PresetFileError(PresetNotFoundText(preset.value, Absolute(cwd, respath.value)))
    else PresetFileError(PresetGenericText)
  }

  const TokenTextHead := "Token \""
  const TokenTextTail := "\" is regarded as invalid or nonexistent and skipped parsing."

  /** The default message of `TokenError`, from which the token can be read back. */
  function TokenNotFoundText(token: string): (r: string)
    ensures |r| == |TokenTextHead| + |token| + |TokenTextTail|
    ensures StartsWith(r, TokenTextHead)
    ensures r[|TokenTextHead|..|r| - |TokenTextTail|] == token
    ensures Contains(r, token)
  {
    var r := TokenTextHead + token + TokenTextTail;
    ContainsMiddle(TokenTextHead, token, TokenTextTail);
    assert r[..|TokenTextHead|] == TokenTextHead;
    r
  }

  /** `TokenError(token, message=message)`: `message` verbatim when non-empty, else the default text. */
  function NewTokenError(token: string, message: string): (e: Error)
    ensures e.TokenError?
    ensures message != "" ==> e.message == message
    ensures message == "" ==> e.message == TokenNotFoundText(token)
  {
    TokenError(if message == "" then TokenNotFoundText(token) else message)
  }

  /** Two default token messages are equal only for the same token. */
  lemma TokenErrorNamesItsToken(t1: string, t2: string)
    requires NewTokenError(t1, "") == NewTokenError(t2, "")
    ensures t1 == t2
  {
    var m := NewTokenError(t1, "").message;
    assert m[|TokenTextHead|..|m| - |TokenTextTail|] == t1;
  }
}
