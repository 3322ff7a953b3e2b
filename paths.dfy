/**
 * The part of `pathlib` the core relies on, with a path represented by its
 * `str()` form: `/` joins, `.absolute()`, `.name` and `.suffix`.
 * `Path()` is the string ".".
 */
module Paths {
  import opened Text

  type Path = string

  predicate IsAbsolute(p: Path) { StartsWith(p, "/") }

  /** A name whose first character is not `/` is relative. */
  lemma RelativeName(p: Path)
    requires |p| > 0 && p[0] != '/'
    ensures !IsAbsolute(p)
  {
    assert p[..1][0] == p[0];
  }

  /** `base / rel`: an absolute `rel` replaces `base`; `Path() / rel` and `Path("") / rel` are `rel`. */
  function Join(base: Path, rel: Path): Path
  {
    if rel == "" then (if base == "" then "." else base)
    else if IsAbsolute(rel) || base == "." || base == "" then rel
    else if |base| > 0 && base[|base| - 1] == '/' then base + rel
    else base + "/" + rel
  }

  /** `p.absolute()` for a process whose working directory is `cwd`. */
  function Absolute(cwd: Path, p: Path): Path
  {
    if IsAbsolute(p) then p else if p == "." || p == "" then cwd else Join(cwd, p)
  }

  /** `s.rfind(c)`: the last index holding `c`, or -1. */
  function LastIndexOf(s: string, c: char): (i: int)
    ensures -1 <= i < |s|
    ensures i >= 0 ==> s[i] == c
    ensures forall k :: i < k < |s| ==> s[k] != c
    decreases |s|
  {
    if |s| == 0 then -1
    else if s[|s| - 1] == c then |s| - 1
    else LastIndexOf(s[..|s| - 1], c)
  }

  /** `p.name`: the final component. */
  function Name(p: Path): string
  {
    p[LastIndexOf(p, '/') + 1..]
  }

  /** `p.suffix`: the final `.`-extension of the name, or "" when there is none. */
  function Suffix(p: Path): string
  {
    var name := Name(p);
    var i := LastIndexOf(name, '.');
    if 0 < i < |name| - 1 then name[i..] else ""
  }

  /** The last `c` of `pre + tail` is the last character of `pre` when `tail` holds no `c`. */
  lemma {:induction false} LastIndexOfAppend(pre: string, tail: string, c: char)
    requires |pre| > 0 && pre[|pre| - 1] == c && c !in tail
    ensures LastIndexOf(pre + tail, c) == |pre| - 1
    decreases |tail|
  {
    if |tail| == 0 {
      assert pre + tail == pre;
    } else {
      var s := pre + tail;
      assert s[..|s| - 1] == pre + tail[..|tail| - 1];
      assert s[|s| - 1] == tail[|tail| - 1];
      LastIndexOfAppend(pre, tail[..|tail| - 1], c);
    }
  }

  /** A file name joined under a directory keeps that name. */
  lemma NameOfJoin(base: Path, name: string)
    requires name != "" && '/' !in name
    ensures Name(Join(base, name)) == name
  {
    var p := Join(base, name);
    if p == name {
      assert LastIndexOf(p, '/') == -1;
    } else {
      var pre := if |base| > 0 && base[|base| - 1] == '/' then base else base + "/";
      assert p == pre + name;
      LastIndexOfAppend(pre, name, '/');
      assert p[|pre|..] == name;
    }
  }

  /**
   * `(base / (stem + ext)).suffix == ext` for an extension such as ".json":
   * a dot followed by characters that are neither `.` nor `/`.
   */
  lemma SuffixOfJoin(base: Path, stem: string, ext: string)
    requires stem != "" && '/' !in stem
    requires |ext| >= 2 && ext[0] == '.' && '/' !in ext && '.' !in ext[1..]
    ensures Suffix(Join(base, stem + ext)) == ext
  {
    var name := stem + ext;
    assert '/' !in name by {
      forall k | 0 <= k < |name| ensures name[k] != '/' {
        if k < |stem| { assert name[k] == stem[k]; } else { assert name[k] == ext[k - |stem|]; }
      }
    }
    NameOfJoin(base, name);
    var i := LastIndexOf(name, '.');
    assert name[|stem|] == '.';
    assert name[i..] == ext;
  }
}
