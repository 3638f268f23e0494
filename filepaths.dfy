/**
 * The `File.join`, `File.split` and `File.basename` behaviour the project and
 * session paths are built with, on POSIX paths with `/` as the only separator.
 */
module FilePaths {
  import opened RubyText

  /** `s` without its trailing slashes. */
  function TrimTrailingSlashes(s: string): (r: string)
    ensures |r| <= |s| && r == s[..|r|]
    ensures r == [] || r[|r| - 1] != '/'
    ensures forall i :: |r| <= i < |s| ==> s[i] == '/'
    decreases |s|
  {
    if |s| > 0 && s[|s| - 1] == '/' then TrimTrailingSlashes(s[..|s| - 1]) else s
  }

  /**
   * `File.join(a, b)`: one separator between the two parts. When `b` starts
   * with a slash the trailing slashes of `a` are dropped, when `a` already
   * ends with one nothing is added.
   */
  function Join(a: string, b: string): string {
    if |b| > 0 && b[0] == '/' then TrimTrailingSlashes(a) + b
    else if |a| > 0 && a[|a| - 1] == '/' then a + b
    else a + "/" + b
  }

  /** `File.join(a, b, c)`. */
  function Join3(a: string, b: string, c: string): string {
    Join(Join(a, b), c)
  }

  /** The position of the last slash of `s`, -1 when there is none. */
  function LastSlash(s: string): (r: int)
    ensures -1 <= r < |s|
    ensures r >= 0 ==> s[r] == '/'
    ensures forall i :: r < i < |s| ==> s[i] != '/'
    decreases |s|
  {
    if s == [] then -1
    else if s[|s| - 1] == '/' then |s| - 1
    else LastSlash(s[..|s| - 1])
  }

  /**
   * `File.split(name)`, that is `[File.dirname(name), File.basename(name)]`:
   * trailing slashes are ignored, the name is cut at its last slash, and the
   * directory of a name without a slash is `.`.
   */
  function Split(name: string): (r: (string, string))
    ensures NoneOf(name, '/') ==> r == (".", name)
  {
    var t := TrimTrailingSlashes(name);
    if name != [] && t == [] then ("/", "/")
    else
      var k := LastSlash(t);
      if k < 0 then (".", t)
      else
        var dir := TrimTrailingSlashes(t[..k]);
        (if dir == [] then "/" else dir, t[k + 1..])
  }

  /** `File.basename(name)`. */
  function Basename(name: string): string {
    Split(name).1
  }

  /** Two parts without a separator between them are joined with one. */
  lemma JoinWithSeparator(a: string, b: string)
    requires |a| > 0 && a[|a| - 1] != '/'
    requires |b| > 0 && b[0] != '/'
    ensures Join(a, b) == a + "/" + b
  {
  }

  /** Three parts without separators between them are joined with one between each. */
  lemma Join3WithSeparators(a: string, b: string, c: string)
    requires |a| > 0 && a[|a| - 1] != '/'
    requires |b| > 0 && b[0] != '/' && b[|b| - 1] != '/'
    requires |c| > 0 && c[0] != '/'
    ensures Join3(a, b, c) == a + "/" + b + "/" + c
  {
    JoinWithSeparator(a, b);
    var d := a + "/" + b;
    assert d[|d| - 1] == b[|b| - 1];
    JoinWithSeparator(d, c);
  }

  /** A join ends with the last character of its second part. */
  lemma JoinEndsWithLast(a: string, b: string)
    requires |b| > 0
    ensures |Join(a, b)| > 0 && Join(a, b)[|Join(a, b)| - 1] == b[|b| - 1]
  {
    var j := Join(a, b);
    var pre := j[..|j| - |b|];
    assert j == pre + b by {
      if |b| > 0 && b[0] == '/' {
        assert j == TrimTrailingSlashes(a) + b;
      } else if |a| > 0 && a[|a| - 1] == '/' {
        assert j == a + b;
      } else {
        assert j == (a + "/") + b;
      }
    }
  }

  /** A directory and a slash-free base name join into a path that splits back into them. */
  lemma SplitOfJoin(dir: string, base: string)
    requires |dir| > 0 && dir[|dir| - 1] != '/'
    requires |base| > 0 && NoneOf(base, '/')
    ensures Join(dir, base) == dir + "/" + base
    ensures Split(Join(dir, base)) == (dir, base)
  {
    var p := dir + "/" + base;
    assert TrimTrailingSlashes(p) == p;
    assert LastSlash(p) == |dir| by {
      var k := LastSlash(p);
      assert p[|dir|] == '/';
      forall i | |dir| < i < |p| ensures p[i] != '/' {
        assert p[i] == base[i - |dir| - 1];
      }
    }
    assert p[..|dir|] == dir;
    assert TrimTrailingSlashes(dir) == dir;
    assert p[|dir| + 1..] == base;
  }
}
