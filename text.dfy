/** Character-level helpers shared by the validators, the settings store and
    the recogniser adapter, and the two path primitives the extension lookups
    share. Python's `str.lower()` is modelled on ASCII letters. */
module Text {

  function LowerChar(c: char): char
  {
    if 'A' <= c <= 'Z' then (c as int - 'A' as int + 'a' as int) as char else c
  }

  /** `s.lower()`, position by position. */
  function Lower(s: string): (r: string)
    ensures |r| == |s|
    ensures forall i :: 0 <= i < |s| ==> r[i] == LowerChar(s[i])
  {
    seq(|s|, i requires 0 <= i < |s| => LowerChar(s[i]))
  }

  predicate IsLower(s: string)
  {
    forall i :: 0 <= i < |s| ==> !('A' <= s[i] <= 'Z')
  }

  /** Lowercasing leaves no upper-case letter and is idempotent. */
  lemma LowerIsLower(s: string)
    ensures IsLower(Lower(s))
    ensures Lower(Lower(s)) == Lower(s)
  {
  }

  /** A string without upper-case letters is its own lower case. */
  lemma LowerFixesLower(s: string)
    requires IsLower(s)
    ensures Lower(s) == s
  {
  }

  /** `'.' + s` lowercases to `'.' + s.lower()`. */
  lemma LowerPrefixDot(s: string)
    ensures Lower(['.'] + s) == ['.'] + Lower(s)
  {
  }

  /** The text after the last `/`. */
  function LastComponent(path: string): (r: string)
    ensures |r| <= |path| && '/' !in r
    ensures r == path[|path| - |r|..]
    ensures |r| < |path| ==> path[|path| - |r| - 1] == '/'
  {
    if path == [] then []
    else if path[|path| - 1] == '/' then []
    else LastComponent(path[..|path| - 1]) + [path[|path| - 1]]
  }

  /** Python's `str.rfind(c)`: the last index of `c`, or -1. */
  function LastIndexOf(s: string, c: char): (i: int)
    ensures -1 <= i < |s|
    ensures i >= 0 ==> s[i] == c
    ensures forall k :: i < k < |s| ==> s[k] != c
  {
    if s == [] then -1
    else if s[|s| - 1] == c then |s| - 1
    else LastIndexOf(s[..|s| - 1], c)
  }

  /** The last component of a path is the name after its final `/`. */
  lemma {:induction false} LastComponentOf(dir: string, name: string)
    requires dir == [] || dir[|dir| - 1] == '/'
    requires '/' !in name
    ensures LastComponent(dir + name) == name
  {
    if name == [] {
      assert dir + name == dir;
    } else {
      var path := dir + name;
      var init, c := name[..|name| - 1], name[|name| - 1];
      assert '/' !in init by {
        assert forall k :: 0 <= k < |init| ==> init[k] == name[k];
      }
      assert path[|path| - 1] == c != '/';
      assert path[..|path| - 1] == dir + init;
      LastComponentOf(dir, init);
      LastComponentStep(path);
      assert init + [c] == name;
    }
  }

  lemma LastComponentStep(path: string)
    requires path != [] && path[|path| - 1] != '/'
    ensures LastComponent(path) == LastComponent(path[..|path| - 1]) + [path[|path| - 1]]
  {
  }

  /** The last dot of `stem.ext` is the one before `ext` when `ext` has none. */
  lemma {:induction false} LastDotBefore(stem: string, ext: string)
    requires '.' !in ext
    ensures LastIndexOf(stem + ['.'] + ext, '.') == |stem|
  {
    var s := stem + ['.'] + ext;
    if ext != [] {
      var init := ext[..|ext| - 1];
      assert s[..|s| - 1] == stem + ['.'] + init;
      assert s[|s| - 1] == ext[|ext| - 1];
      LastDotBefore(stem, init);
    }
  }

  /** `a + b + c + d` regrouped around its last three parts. */
  lemma Regroup(a: string, b: string, c: string, d: string)
    ensures a + b + c + d == a + (b + (c + d))
    ensures b + c + d == b + (c + d)
  {
  }

  lemma DropFront(a: string, b: string)
    ensures (a + b)[|a|..] == b
  {
  }
}
