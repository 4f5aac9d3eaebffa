/** The unpacked export archive: its files, by path relative to the archive root,
    in the order os.walk visits them. Sidecars and image files hold text; the
    descriptor file holds the tree last written to it. Directories exist only
    through the files beneath them. */
module Fs {
  import opened Base
  import Ovf

  datatype Data = Text(text: string) | Doc(tree: Ovf.Descriptor)
  datatype Entry = Entry(path: string, data: Data)
  type Archive = seq<Entry>

  /** An fnmatch pattern of the two shapes the uploader uses: a literal file
      name (`<id>`, `<id>.meta`) or `*<suffix>` (`*.ovf`, `*.meta`). */
  datatype Pattern = Named(name: string) | Suffixed(suffix: string)

  predicate Matches(name: string, pat: Pattern) {
    match pat
    case Named(n) => name == n
    case Suffixed(suf) => EndsWith(name, suf)
  }

  predicate MatchesAt(fs: Archive, k: nat, pat: Pattern)
    requires k < |fs|
  {
    Matches(Basename(fs[k].path), pat)
  }

  function FindIndexFrom(fs: Archive, pat: Pattern, from: nat): (r: Option<nat>)
    requires from <= |fs|
    ensures r.None? <==> forall k :: from <= k < |fs| ==> !MatchesAt(fs, k, pat)
    ensures r.Some? ==> from <= r.value < |fs| && MatchesAt(fs, r.value, pat)
    ensures r.Some? ==> forall j :: from <= j < r.value ==> !MatchesAt(fs, j, pat)
    decreases |fs| - from
  {
    if from == |fs| then None
    else if MatchesAt(fs, from, pat) then Some(from)
    else FindIndexFrom(fs, pat, from + 1)
  }

  /** The first file, in walk order, whose name matches the pattern. */
  function FindIndex(fs: Archive, pat: Pattern): (r: Option<nat>)
    ensures r.None? <==> forall k :: 0 <= k < |fs| ==> !MatchesAt(fs, k, pat)
    ensures r.Some? ==> r.value < |fs| && MatchesAt(fs, r.value, pat)
    ensures r.Some? ==> forall j :: 0 <= j < r.value ==> !MatchesAt(fs, j, pat)
  {
    FindIndexFrom(fs, pat, 0)
  }

  /** find_file: the relative path of that file, or None. */
  function Find(fs: Archive, pat: Pattern): Option<string> {
    match FindIndex(fs, pat)
    case None => None
    case Some(k) => Some(fs[k].path)
  }

  /** find_file: the first file, in walk order, whose name matches. */
  method FindFile(fs: Archive, pat: Pattern) returns (r: Option<string>)
    ensures r == Find(fs, pat)
    ensures r.Some? ==> Matches(Basename(r.value), pat)
  {
    var i := 0;
    while i < |fs|
      invariant 0 <= i <= |fs|
      invariant FindIndexFrom(fs, pat, i) == FindIndex(fs, pat)
    {
      if MatchesAt(fs, i, pat) {
        return Some(fs[i].path);
      }
      i := i + 1;
    }
    return None;
  }

  predicate UniquePaths(fs: Archive) {
    forall i, j :: 0 <= i < j < |fs| ==> fs[i].path != fs[j].path
  }

  function IndexOfFrom(fs: Archive, p: string, from: nat): (r: Option<nat>)
    requires from <= |fs|
    ensures r.None? <==> forall k :: from <= k < |fs| ==> fs[k].path != p
    ensures r.Some? ==> from <= r.value < |fs| && fs[r.value].path == p
    ensures r.Some? ==> forall k :: from <= k < r.value ==> fs[k].path != p
    decreases |fs| - from
  {
    if from == |fs| then None
    else if fs[from].path == p then Some(from)
    else IndexOfFrom(fs, p, from + 1)
  }

  function IndexOf(fs: Archive, p: string): (r: Option<nat>)
    ensures r.None? <==> forall k :: 0 <= k < |fs| ==> fs[k].path != p
    ensures r.Some? ==> r.value < |fs| && fs[r.value].path == p
    ensures r.Some? ==> forall k :: 0 <= k < r.value ==> fs[k].path != p
  {
    IndexOfFrom(fs, p, 0)
  }

  /** The contents of the file at p. */
  function Lookup(fs: Archive, p: string): Option<Data> {
    match IndexOf(fs, p)
    case None => None
    case Some(k) => Some(fs[k].data)
  }

  /** The path lies inside directory dir. */
  predicate Under(path: string, dir: string) {
    StartsWith(path, dir + "/")
  }

  /** A file is at p, or p is a directory holding files. */
  predicate Occupied(fs: Archive, p: string) {
    exists k :: 0 <= k < |fs| && (fs[k].path == p || Under(fs[k].path, p))
  }

  /** open(p, 'w').write(...): replaces the file in place, or adds it. */
  function Write(fs: Archive, p: string, d: Data): (r: Archive)
    ensures IndexOf(fs, p).Some? ==> |r| == |fs| && forall k :: 0 <= k < |fs| ==> r[k].path == fs[k].path
  {
    match IndexOf(fs, p)
    case Some(k) => fs[k := Entry(p, d)]
    case None => fs + [Entry(p, d)]
  }

  function RemovePath(fs: Archive, p: string): (r: Archive)
    ensures forall x :: x in r <==> x in fs && x.path != p
  {
    if fs == [] then []
    else (if fs[0].path == p then [] else [fs[0]]) + RemovePath(fs[1..], p)
  }

  /** os.rename of a file: fails when the source is missing or the target is a
      directory with files; a file already at the target is replaced. */
  function RenameFile(fs: Archive, src: string, dst: string): Option<Archive> {
    if IndexOf(fs, src).None? then None
    else if src == dst then Some(fs)
    else if exists k :: 0 <= k < |fs| && Under(fs[k].path, dst) then None
    else
      var f := RemovePath(fs, dst);
      Some(seq(|f|, k requires 0 <= k < |f| => if f[k].path == src then Entry(dst, f[k].data) else f[k]))
  }

  /** os.rename of a directory: every file beneath src moves beneath dst. Fails
      when src holds no file, when dst lies inside src, or when dst is taken. */
  function RenameDir(fs: Archive, src: string, dst: string): Option<Archive> {
    if !exists k :: 0 <= k < |fs| && Under(fs[k].path, src) then None
    else if src == dst then Some(fs)
    else if Under(dst, src) || Occupied(fs, dst) then None
    else Some(seq(|fs|, k requires 0 <= k < |fs| =>
      if Under(fs[k].path, src) then Entry(dst + fs[k].path[|src|..], fs[k].data) else fs[k]))
  }

  // ---- Lemmas ----------------------------------------------------------

  /** With unique paths, a file's contents are found under its own path. */
  lemma LookupAt(fs: Archive, k: nat)
    requires UniquePaths(fs) && k < |fs|
    ensures Lookup(fs, fs[k].path) == Some(fs[k].data)
  {
    var i := IndexOf(fs, fs[k].path);
    assert i.Some? && fs[i.value].path == fs[k].path;
  }

  /** Archives that agree on which positions match, and on the paths there,
      give the same result for find_file. */
  lemma FindSame(a: Archive, b: Archive, pat: Pattern)
    requires |a| == |b|
    requires forall k :: 0 <= k < |a| ==> MatchesAt(a, k, pat) == MatchesAt(b, k, pat)
    requires forall k :: 0 <= k < |a| && MatchesAt(a, k, pat) ==> a[k].path == b[k].path
    ensures Find(a, pat) == Find(b, pat)
  {
    var ra, rb := FindIndex(a, pat), FindIndex(b, pat);
    assert ra.Some? ==> rb.Some? && rb.value <= ra.value;
    assert rb.Some? ==> ra.Some? && ra.value <= rb.value;
  }

  lemma {:induction false} RemoveAbsent(fs: Archive, p: string)
    requires forall k :: 0 <= k < |fs| ==> fs[k].path != p
    ensures RemovePath(fs, p) == fs
  {
    if fs != [] {
      RemoveAbsent(fs[1..], p);
      assert fs == [fs[0]] + fs[1..];
    }
  }

  /** Renaming a file to a free path changes that one entry in place. */
  lemma RenameFileInPlace(fs: Archive, src: string, dst: string, i: nat)
    requires UniquePaths(fs) && i < |fs| && fs[i].path == src && src != dst
    requires !Occupied(fs, dst)
    ensures RenameFile(fs, src, dst) == Some(fs[i := Entry(dst, fs[i].data)])
    ensures UniquePaths(fs[i := Entry(dst, fs[i].data)])
  {
    RemoveAbsent(fs, dst);
    var r := fs[i := Entry(dst, fs[i].data)];
    var s := seq(|fs|, k requires 0 <= k < |fs| => if fs[k].path == src then Entry(dst, fs[k].data) else fs[k]);
    assert s == r;
  }

  /** Rewriting an existing file keeps every path and its place. */
  lemma WriteExisting(fs: Archive, i: nat, d: Data)
    requires UniquePaths(fs) && i < |fs|
    ensures Write(fs, fs[i].path, d) == fs[i := Entry(fs[i].path, d)]
    ensures UniquePaths(fs[i := Entry(fs[i].path, d)])
  {
    var j := IndexOf(fs, fs[i].path);
    assert j.Some? && fs[j.value].path == fs[i].path;
  }

  /** The path p moved from beneath src to beneath dst. */
  function Moved(p: string, src: string, dst: string): string
    requires |src| <= |p|
  {
    dst + p[|src|..]
  }

  lemma MovedUnder(p: string, src: string, dst: string)
    requires Under(p, src)
    ensures Under(Moved(p, src, dst), dst)
  {
    assert p[..|src| + 1][|src|] == p[|src|];
    assert Moved(p, src, dst)[..|dst| + 1] == dst + "/";
  }

  lemma MovedInjective(p: string, q: string, src: string, dst: string)
    requires Under(p, src) && Under(q, src) && p != q
    ensures Moved(p, src, dst) != Moved(q, src, dst)
  {
    assert p == p[..|src|] + p[|src|..] && p[..|src|] == p[..|src| + 1][..|src|];
    assert q == q[..|src|] + q[|src|..] && q[..|src|] == q[..|src| + 1][..|src|];
    assert Moved(p, src, dst)[|dst|..] == p[|src|..];
    assert Moved(q, src, dst)[|dst|..] == q[|src|..];
  }

  /** Renaming a directory to a free path moves every file beneath it and keeps
      the rest in place; paths stay unique. */
  lemma RenameDirMoves(fs: Archive, src: string, dst: string, i: nat)
    requires UniquePaths(fs) && i < |fs| && Under(fs[i].path, src)
    requires src != dst && !Under(dst, src) && !Occupied(fs, dst)
    ensures RenameDir(fs, src, dst).Some?
    ensures var r := RenameDir(fs, src, dst).value;
      |r| == |fs| && UniquePaths(r) &&
      forall k :: 0 <= k < |fs| ==>
        r[k] == if Under(fs[k].path, src) then Entry(Moved(fs[k].path, src, dst), fs[k].data) else fs[k]
  {
    var r := RenameDir(fs, src, dst).value;
    forall a, b | 0 <= a < b < |r| ensures r[a].path != r[b].path {
      var pa, pb := fs[a].path, fs[b].path;
      if Under(pa, src) && Under(pb, src) {
        MovedInjective(pa, pb, src, dst);
      } else if Under(pa, src) {
        MovedUnder(pa, src, dst);
        assert !Under(pb, dst) && pb != dst;
      } else if Under(pb, src) {
        MovedUnder(pb, src, dst);
        assert !Under(pa, dst) && pa != dst;
      }
    }
  }

  /** Renaming a directory to a free path carries a file named name in it to
      the same name in the new directory. */
  lemma MoveIntoDir(fs: Archive, i: nat, dir: string, newDir: string, name: string)
    requires UniquePaths(fs) && i < |fs| && fs[i].path == dir + "/" + name
    requires dir != newDir && !Under(newDir, dir) && !Occupied(fs, newDir)
    ensures RenameDir(fs, dir, newDir).Some?
    ensures UniquePaths(RenameDir(fs, dir, newDir).value)
    ensures Lookup(RenameDir(fs, dir, newDir).value, newDir + "/" + name) == Some(fs[i].data)
  {
    var p := dir + "/" + name;
    assert Under(p, dir) by { assert p[..|dir| + 1] == dir + "/"; }
    RenameDirMoves(fs, dir, newDir, i);
    var r := RenameDir(fs, dir, newDir).value;
    assert p[|dir|..] == "/" + name;
    assert Moved(p, dir, newDir) == newDir + "/" + name;
    LookupAt(r, i);
  }

  /** Replacing one entry by a file that neither is p nor lies beneath p leaves p free. */
  lemma FreeAfterReplace(fs: Archive, j: nat, e: Entry, p: string)
    requires j < |fs| && !Occupied(fs, p) && e.path != p && !Under(e.path, p)
    ensures !Occupied(fs[j := e], p)
  {
    var r := fs[j := e];
    forall k | 0 <= k < |r| ensures r[k].path != p && !Under(r[k].path, p) {
      if k != j {
        assert r[k] == fs[k];
      }
    }
  }

  /** Rewriting an existing file leaves a free path free. */
  lemma WriteKeepsFree(fs: Archive, i: nat, d: Data, p: string)
    requires UniquePaths(fs) && i < |fs| && !Occupied(fs, p)
    ensures Write(fs, fs[i].path, d) == fs[i := Entry(fs[i].path, d)]
    ensures UniquePaths(fs[i := Entry(fs[i].path, d)]) && !Occupied(fs[i := Entry(fs[i].path, d)], p)
  {
    WriteExisting(fs, i, d);
    FreeAfterReplace(fs, i, Entry(fs[i].path, d), p);
  }

  /** Rewriting a file and then renaming it to a free path changes that one entry in place. */
  lemma WriteThenRename(fs: Archive, j: nat, dst: string, d: Data)
    requires UniquePaths(fs) && j < |fs| && fs[j].path != dst && !Under(fs[j].path, dst)
    requires !Occupied(fs, dst)
    ensures RenameFile(Write(fs, fs[j].path, d), fs[j].path, dst) == Some(fs[j := Entry(dst, d)])
    ensures UniquePaths(fs[j := Entry(dst, d)])
  {
    var src := fs[j].path;
    WriteExisting(fs, j, d);
    var written := fs[j := Entry(src, d)];
    FreeAfterReplace(fs, j, Entry(src, d), dst);
    RenameFileInPlace(written, src, dst, j);
    assert written[j := Entry(dst, d)] == fs[j := Entry(dst, d)];
  }

  /** Replacing an entry that does not match the pattern by another that does not
      leaves find_file's answer unchanged. */
  lemma FindAfterReplace(fs: Archive, i: nat, e: Entry, pat: Pattern)
    requires i < |fs| && !Matches(Basename(fs[i].path), pat) && !Matches(Basename(e.path), pat)
    ensures Find(fs[i := e], pat) == Find(fs, pat)
  {
    var r := fs[i := e];
    forall k | 0 <= k < |fs| ensures MatchesAt(fs, k, pat) == MatchesAt(r, k, pat) {
      if k != i {
        assert r[k] == fs[k];
      }
    }
    FindSame(fs, r, pat);
  }
}
