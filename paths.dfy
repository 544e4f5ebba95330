/**
 * POSIX path manipulation from Python's `os.path` and `pathlib`, over
 * `seq<char>` with `/` as the only separator.
 */
module Paths {

  /** `s.rfind(c)`: the last index of `c` in `s`, or -1. */
  function LastIndex(s: string, c: char): (r: int)
    ensures -1 <= r < |s|
    ensures r >= 0 ==> s[r] == c
    ensures forall k :: r < k < |s| ==> s[k] != c
  {
    if s == [] then -1
    else if s[|s| - 1] == c then |s| - 1
    else LastIndex(s[..|s| - 1], c)
  }

  /** `os.path.basename(p)`: what follows the last `/`, the longest tail without a separator. */
  function Basename(p: string): (r: string)
    ensures |r| <= |p| && r == p[|p| - |r|..]
    ensures '/' !in r
    ensures |r| < |p| ==> p[|p| - |r| - 1] == '/'
  {
    p[LastIndex(p, '/') + 1..]
  }

  /** True when `p` ends in a component that has an extension in the sense of `os.path.splitext`. */
  predicate HasExtension(p: string)
  {
    var sep := LastIndex(p, '/');
    var dot := LastIndex(p, '.');
    dot > sep && exists i :: sep < i < dot && p[i] != '.'
  }

  /**
   * `os.path.splitext(p)[0]`: `p` without the extension of its last
   * component. A dot counts only when something other than dots precedes
   * it in that component, so `.bashrc` and `..x` have no extension.
   */
  function SplitExtRoot(p: string): (r: string)
    ensures |r| <= |p| && r == p[..|r|]
    // what is removed is the last extension: one dot and then neither a dot nor a separator
    ensures r != p ==> p[|r|] == '.' && '.' !in p[|r| + 1..] && '/' !in p[|r| + 1..]
  {
    if HasExtension(p) then p[..LastIndex(p, '.')] else p
  }

  /** When `splitext` removes something, and when it removes nothing. */
  lemma SplitExtRootCases(p: string)
    // what remains of the last component is not only dots
    ensures SplitExtRoot(p) != p ==> exists i :: LastIndex(p, '/') < i < |SplitExtRoot(p)| && p[i] != '.'
    // when nothing is removed, every dot of the last component has only dots before it
    ensures SplitExtRoot(p) == p ==> forall i, j :: LastIndex(p, '/') < i < j < |p| && p[j] == '.' ==> p[i] == '.'
  {
  }

  /**
   * On a single component (no separator), `splitext` removes an extension
   * exactly when some dot has a non-dot somewhere before it.
   */
  lemma SplitExtRootOfName(name: string)
    requires '/' !in name
    ensures SplitExtRoot(name) != name <==> exists i, j :: 0 <= i < j < |name| && name[i] != '.' && name[j] == '.'
  {
    var root := SplitExtRoot(name);
    SplitExtRootCases(name);
    forall k | -1 < k < |name| ensures name[k] != '/' {
      assert name[k] in name;
    }
    LastIndexAt(name, '/', -1);
    if root != name {
      var i :| -1 < i < |root| && name[i] != '.';
      assert name[i] != '.' && name[|root|] == '.';
    }
  }

  /**
   * `pathlib.PurePath(p).stem` (Python 3.12) of a path whose last component
   * is `name`: the name without its suffix, where a suffix starts at a last
   * dot that is neither the first nor the last character of the name.
   */
  function Stem(name: string): (r: string)
    ensures |r| <= |name| && r == name[..|r|]
    ensures r != name ==> 0 < |r| < |name| - 1 && name[|r|] == '.' && '.' !in name[|r| + 1..]
    // nothing is removed when the last dot, if any, begins or ends the name
    ensures r == name ==> var d := LastIndex(name, '.'); d <= 0 || d == |name| - 1
  {
    var i := LastIndex(name, '.');
    if 0 < i < |name| - 1 then name[..i] else name
  }

  /** `os.path.join(a, b)` for two components. */
  function PathJoin(a: string, b: string): (r: string)
  {
    if |b| > 0 && b[0] == '/' then b
    else if a == [] || a[|a| - 1] == '/' then a + b
    else a + "/" + b
  }

  /** The directory part that `os.path.join(a, ·)` puts before a relative name. */
  function JoinPrefix(a: string): string
  {
    if a == [] || a[|a| - 1] == '/' then a else a + "/"
  }

  /** Joining a relative name puts one fixed prefix before it. */
  lemma JoinRelative(a: string, b: string)
    requires '/' !in b
    ensures PathJoin(a, b) == JoinPrefix(a) + b
  {
    if |b| > 0 {
      assert b[0] in b;
    }
  }

  lemma BasenameAfterSeparator(a: string, b: string)
    requires '/' !in b
    requires a == [] || a[|a| - 1] == '/'
    ensures Basename(a + b) == b
  {
    var s := a + b;
    forall i | |a| <= i < |s| ensures s[i] != '/' {
      assert s[i] == b[i - |a|];
    }
    LastIndexAt(s, '/', |a| - 1);
    assert s[|a|..] == b;
  }

  /** `LastIndex` finds `k` when `c` is at `k` (or `k` is -1) and nowhere after it. */
  lemma {:induction false} LastIndexAt(s: string, c: char, k: int)
    requires -1 <= k < |s|
    requires k >= 0 ==> s[k] == c
    requires forall i :: k < i < |s| ==> s[i] != c
    ensures LastIndex(s, c) == k
    decreases |s|
  {
    if k != |s| - 1 {
      LastIndexAt(s[..|s| - 1], c, k);
    }
  }

  /**
   * `os.path.basename` undoes `os.path.join` for a directory entry name
   * (one without a separator): the pair returned by `process_image` names
   * the file that was read.
   */
  lemma BasenameOfJoin(a: string, b: string)
    requires '/' !in b
    ensures Basename(PathJoin(a, b)) == b
  {
    JoinRelative(a, b);
    BasenameAfterSeparator(JoinPrefix(a), b);
  }

  lemma NoSeparatorInPrefix(s: string, t: string)
    requires '/' !in s && |t| <= |s| && t == s[..|t|]
    ensures '/' !in t
  {
    forall k | 0 <= k < |t| ensures t[k] != '/' {
      assert t[k] == s[k];
    }
  }

  /** The stem of a path has no separator: it is a prefix of the base name. */
  lemma StemHasNoSeparator(p: string)
    ensures '/' !in Stem(Basename(p))
  {
    NoSeparatorInPrefix(Basename(p), Stem(Basename(p)));
  }
}
