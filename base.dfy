/** Small shared vocabulary: an option type and the POSIX path helpers
    (os.path.dirname, os.path.basename, os.path.join) the uploader relies on. */
module Base {

  datatype Option<+T> = None | Some(value: T)

  predicate StartsWith(s: string, prefix: string) {
    |prefix| <= |s| && s[..|prefix|] == prefix
  }

  predicate EndsWith(s: string, suffix: string) {
    |suffix| <= |s| && s[|s| - |suffix|..] == suffix
  }

  /** A generated identifier: non-empty, and free of the path separator, of '.'
      and of line breaks (uuid4 strings are hex digits and dashes). */
  predicate IsId(s: string) {
    s != [] && forall k :: 0 <= k < |s| ==> s[k] != '/' && s[k] != '.' && s[k] != '\n'
  }

  /** One past the last '/' of p, or 0 when p has none. */
  function SplitPoint(p: string): (i: nat)
    ensures i <= |p|
    ensures i > 0 ==> p[i - 1] == '/'
    ensures forall k :: i <= k < |p| ==> p[k] != '/'
  {
    if p == [] then 0
    else if p[|p| - 1] == '/' then |p|
    else SplitPoint(p[..|p| - 1])
  }

  predicate AllSlashes(s: string) {
    forall k :: 0 <= k < |s| ==> s[k] == '/'
  }

  /** s with its trailing slashes removed. */
  function RStripSlashes(s: string): (r: string)
    ensures |r| <= |s| && r == s[..|r|]
    ensures r == [] || r[|r| - 1] != '/'
    ensures forall k :: |r| <= k < |s| ==> s[k] == '/'
  {
    if s != [] && s[|s| - 1] == '/' then RStripSlashes(s[..|s| - 1]) else s
  }

  /** os.path.dirname: the head up to the last '/', trailing slashes stripped
      unless the head is made of slashes only. */
  function Dirname(p: string): string {
    var head := p[..SplitPoint(p)];
    if head != [] && !AllSlashes(head) then RStripSlashes(head) else head
  }

  /** os.path.basename: everything after the last '/'. */
  function Basename(p: string): (r: string)
    ensures forall k :: 0 <= k < |r| ==> r[k] != '/'
    ensures EndsWith(p, r)
  {
    p[SplitPoint(p)..]
  }

  /** os.path.join for two components. */
  function Join(a: string, b: string): (r: string)
    ensures EndsWith(r, b)
  {
    if StartsWith(b, "/") then b
    else if a == [] || EndsWith(a, "/") then a + b
    else a + "/" + b
  }

  lemma {:induction false} SplitPointAppend(x: string, b: string)
    requires forall k :: 0 <= k < |b| ==> b[k] != '/'
    ensures SplitPoint(x + b) == SplitPoint(x)
    decreases |b|
  {
    if b == [] {
      assert x + b == x;
    } else {
      var b' := b[..|b| - 1];
      assert (x + b)[..|x + b| - 1] == x + b';
      SplitPointAppend(x, b');
    }
  }

  /** The last component of a joined path is the component that was joined. */
  lemma BasenameOfJoin(a: string, b: string)
    requires forall k :: 0 <= k < |b| ==> b[k] != '/'
    ensures Basename(Join(a, b)) == b
  {
    if a == [] || EndsWith(a, "/") {
      SplitPointAppend(a, b);
      if a != [] { assert SplitPoint(a) == |a|; }
    } else {
      SplitPointAppend(a + "/", b);
      assert SplitPoint(a + "/") == |a| + 1;
    }
  }

  /** Joining a directory without a trailing slash to a plain file name and
      taking the dirname gives the directory back. */
  lemma DirnameOfJoin(a: string, b: string)
    requires forall k :: 0 <= k < |b| ==> b[k] != '/'
    requires a == [] || a[|a| - 1] != '/'
    ensures Dirname(Join(a, b)) == a
  {
    if a == [] {
      SplitPointAppend(a, b);
      assert a + b == b;
    } else {
      assert !StartsWith(b, "/") by {
        if b != [] { assert b[..1][0] == b[0]; }
      }
      assert !EndsWith(a, "/");
      var j := a + "/" + b;
      SplitPointAppend(a + "/", b);
      assert SplitPoint(a + "/") == |a| + 1;
      assert j[..|a| + 1] == a + "/";
      assert !AllSlashes(a + "/") by { assert (a + "/")[|a| - 1] != '/'; }
      assert RStripSlashes(a + "/") == a by {
        assert (a + "/")[..|a|] == a;
      }
    }
  }

  /** Join of a directory without a trailing slash and a relative name. */
  lemma JoinSlash(a: string, b: string)
    requires a != [] && a[|a| - 1] != '/' && (b == [] || b[0] != '/')
    ensures Join(a, b) == a + "/" + b
  {
    assert !StartsWith(b, "/") by {
      if b != [] { assert b[..1][0] == b[0]; }
    }
    assert !EndsWith(a, "/") by {
      assert a[|a| - 1..][0] == a[|a| - 1];
    }
  }
}
