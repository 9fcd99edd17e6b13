/**
 * The two `os.path` operations used to name output files: `splitext` and
 * `join`. The script runs on Windows (its base folder is a drive path), so
 * they follow `ntpath`: both `\` and `/` separate path components and `join`
 * inserts `\`.
 */
module PathNames {

  const Sep: char := '\\'
  const AltSep: char := '/'
  const ExtSep: char := '.'

  predicate IsSep(c: char) {
    c == Sep || c == AltSep
  }

  /** A single path component, as `os.listdir` returns: no separator in it. */
  predicate IsBaseName(name: string) {
    forall i :: 0 <= i < |name| ==> !IsSep(name[i])
  }

  predicate AllDots(s: string) {
    forall i :: 0 <= i < |s| ==> s[i] == ExtSep
  }

  /** `s.rfind(c)`: the index of the last `c` in `s`, or -1 when there is none. */
  function RFind(s: string, c: char): (k: int)
    ensures -1 <= k < |s|
    ensures k >= 0 ==> s[k] == c
    ensures forall j :: k < j < |s| ==> s[j] != c
    decreases |s|
  {
    if s == [] then -1
    else if s[|s| - 1] == c then |s| - 1
    else RFind(s[..|s| - 1], c)
  }

  /** The index of the last separator of either kind, or -1. */
  function LastSepIndex(p: string): (k: int)
    ensures -1 <= k < |p|
    ensures k >= 0 ==> IsSep(p[k])
    ensures forall j :: k < j < |p| ==> !IsSep(p[j])
  {
    var a := RFind(p, Sep);
    var b := RFind(p, AltSep);
    if a < b then b else a
  }

  /**
   * `os.path.splitext(p)`: the extension is the part from the last dot on,
   * provided that dot lies in the last component and something other than
   * dots precedes it within that component; otherwise the extension is empty.
   */
  function SplitExt(p: string): (r: (string, string))
    ensures r.0 + r.1 == p
    ensures r.1 != [] ==> r.1[0] == ExtSep
    ensures forall i :: 1 <= i < |r.1| ==> r.1[i] != ExtSep && !IsSep(r.1[i])
    ensures r.1 != [] ==> exists i :: LastSepIndex(p) < i < |r.0| && r.0[i] != ExtSep
    ensures r.1 == [] ==> forall i, j :: LastSepIndex(p) < i < j < |p| && p[j] == ExtSep ==> p[i] == ExtSep
  {
    var sepIndex := LastSepIndex(p);
    var dotIndex := RFind(p, ExtSep);
    if dotIndex > sepIndex && !AllDots(p[sepIndex + 1..dotIndex]) then
      (p[..dotIndex], p[dotIndex..])
    else
      (p, [])
  }

  /** `os.path.splitext(p)[0]`. */
  function Stem(p: string): string {
    SplitExt(p).0
  }

  /** `os.path.join(dir, name)` for a relative `name` without a drive. */
  function Join(dir: string, name: string): (r: string)
    ensures |dir| + |name| <= |r| <= |dir| + |name| + 1
    ensures r[..|dir|] == dir && r[|r| - |name|..] == name
    ensures |r| > |dir| + |name| ==> r[|dir|] == Sep && dir != [] && !IsSep(dir[|dir| - 1])
    ensures |r| > |name| ==> IsSep(r[|r| - |name| - 1])
  {
    if dir == [] || IsSep(dir[|dir| - 1]) then dir + name else dir + [Sep] + name
  }

  /** Joining one folder with two names gives one path only for one name. */
  lemma JoinInjective(dir: string, x: string, y: string)
    ensures Join(dir, x) == Join(dir, y) <==> x == y
  {
    if Join(dir, x) == Join(dir, y) {
      var d := if dir == [] || IsSep(dir[|dir| - 1]) then dir else dir + [Sep];
      assert Join(dir, x) == d + x && Join(dir, y) == d + y;
      assert x == (d + x)[|d|..];
    }
  }

  /**
   * The last component of a joined path is the joined name: two joins of
   * single components, even under different folders, coincide only when the
   * components do.
   */
  lemma JoinBaseNames(dir1: string, x: string, dir2: string, y: string)
    requires IsBaseName(x) && IsBaseName(y)
    requires Join(dir1, x) == Join(dir2, y)
    ensures x == y
  {
    var p := Join(dir1, x);
    assert x == p[|p| - |x|..] == y;
  }

  /** Two single components in a row, with nothing between them, make one component. */
  lemma BaseNameAppend(a: string, b: string)
    requires IsBaseName(a) && IsBaseName(b)
    ensures IsBaseName(a + b)
  {
    forall i | 0 <= i < |a + b|
      ensures !IsSep((a + b)[i])
    {
      if i < |a| {
        assert (a + b)[i] == a[i];
      } else {
        assert (a + b)[i] == b[i - |a|];
      }
    }
  }

  /** A single component with a prefix and a suffix, neither holding a separator, is still one component. */
  lemma AffixedBaseName(prefix: string, name: string, suffix: string)
    requires IsBaseName(prefix) && IsBaseName(name) && IsBaseName(suffix)
    ensures IsBaseName(prefix + name + suffix)
  {
    BaseNameAppend(prefix, name);
    BaseNameAppend(prefix + name, suffix);
  }

  /** The stem of a single component is again a single component. */
  lemma StemOfBaseName(name: string)
    requires IsBaseName(name)
    ensures IsBaseName(Stem(name))
  {
    var r := SplitExt(name);
    assert Stem(name) == name[..|r.0|];
  }
}
