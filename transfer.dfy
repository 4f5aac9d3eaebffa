/** The transfer plan: get_files_to_copy, which lists what goes to the export
    domain, and the order in which copy_files_nfs copies the archive's files,
    the descriptor always last so that oVirt sees nothing before it is all there. */
module Transfer {
  import opened Base
  import opened Ovf
  import opened Fs

  /** The href of every References/File that has one, in order. */
  function Hrefs(refs: seq<Elem>): (r: seq<string>)
    ensures |r| <= |refs|
    ensures forall x :: x in r ==> exists k :: 0 <= k < |refs| && "href" in refs[k].attrs && refs[k].attrs["href"] == x
  {
    if refs == [] then []
    else
      var n := |refs| - 1;
      var init := Hrefs(refs[..n]);
      assert forall x :: x in init ==> exists k :: 0 <= k < n && "href" in refs[k].attrs && refs[k].attrs["href"] == x by {
        forall x | x in init ensures exists k :: 0 <= k < n && "href" in refs[k].attrs && refs[k].attrs["href"] == x {
          var k :| 0 <= k < n && "href" in refs[..n][k].attrs && refs[..n][k].attrs["href"] == x;
          assert refs[..n][k] == refs[k];
        }
      }
      init + (if "href" in refs[n].attrs then [refs[n].attrs["href"]] else [])
  }

  /** h lists the hrefs of the Files at indices ks: ks increases and holds
      exactly the Files that have an href, and h[j] is the href of File ks[j]. */
  predicate ListsHrefs(h: seq<string>, refs: seq<Elem>, ks: seq<nat>) {
    |ks| == |h| &&
    (forall j :: 0 <= j < |ks| ==> ks[j] < |refs| && "href" in refs[ks[j]].attrs && h[j] == refs[ks[j]].attrs["href"]) &&
    (forall a, b :: 0 <= a < b < |ks| ==> ks[a] < ks[b]) &&
    forall k :: 0 <= k < |refs| && "href" in refs[k].attrs ==> k in ks
  }

  /** Hrefs keeps File order: it lists the href of every File that has one,
      and nothing else, in the order of the Files. */
  lemma {:induction false} HrefsInFileOrder(refs: seq<Elem>) returns (ks: seq<nat>)
    ensures ListsHrefs(Hrefs(refs), refs, ks)
  {
    if refs == [] {
      ks := [];
    } else {
      var n := |refs| - 1;
      var init := HrefsInFileOrder(refs[..n]);
      var hasHref := "href" in refs[n].attrs;
      assert Hrefs(refs) == Hrefs(refs[..n]) + (if hasHref then [refs[n].attrs["href"]] else []);
      ks := if hasHref then init + [n] else init;
      ListsHrefsStep(Hrefs(refs[..n]), refs, init);
    }
  }

  /** One more File extends the listing by its href, when it has one. */
  lemma ListsHrefsStep(h: seq<string>, refs: seq<Elem>, ks: seq<nat>)
    requires refs != [] && ListsHrefs(h, refs[..|refs| - 1], ks)
    ensures var n := |refs| - 1;
      var hasHref := "href" in refs[n].attrs;
      ListsHrefs(h + (if hasHref then [refs[n].attrs["href"]] else []), refs, if hasHref then ks + [n] else ks)
  {
    var n := |refs| - 1;
    if "href" in refs[n].attrs {
      ListsHrefsAdd(h, refs, ks);
    } else {
      ListsHrefsSkip(h, refs, ks);
      assert h + [] == h;
    }
  }

  lemma ListsHrefsSkip(h: seq<string>, refs: seq<Elem>, ks: seq<nat>)
    requires refs != [] && ListsHrefs(h, refs[..|refs| - 1], ks) && "href" !in refs[|refs| - 1].attrs
    ensures ListsHrefs(h, refs, ks)
  {
    var pre := refs[..|refs| - 1];
    assert forall k :: 0 <= k < |pre| ==> pre[k] == refs[k];
  }

  lemma ListsHrefsAdd(h: seq<string>, refs: seq<Elem>, ks: seq<nat>)
    requires refs != [] && ListsHrefs(h, refs[..|refs| - 1], ks) && "href" in refs[|refs| - 1].attrs
    ensures var n := |refs| - 1; ListsHrefs(h + [refs[n].attrs["href"]], refs, ks + [n])
  {
    var n := |refs| - 1;
    var pre := refs[..n];
    var h2, ks2 := h + [refs[n].attrs["href"]], ks + [n];
    assert forall k :: 0 <= k < n ==> pre[k] == refs[k];
    assert forall j :: 0 <= j < |ks| ==> ks2[j] == ks[j] && h2[j] == h[j];
    forall k | 0 <= k < |refs| && "href" in refs[k].attrs ensures k in ks2 {
      if k < n {
        assert k in ks;
      }
    }
  }

  /** Every File that has an href contributes it. */
  lemma HrefsComplete(refs: seq<Elem>, k: nat)
    requires k < |refs| && "href" in refs[k].attrs
    ensures refs[k].attrs["href"] in Hrefs(refs)
  {
    var ks := HrefsInFileOrder(refs);
    var j :| 0 <= j < |ks| && ks[j] == k;
    assert Hrefs(refs)[j] == refs[k].attrs["href"];
  }

  /** The layout of a transfer plan: the descriptor, then for every href the
      image below `images` followed by its sidecar. */
  predicate IsPlan(files: seq<string>, ovf: string, hrefs: seq<string>) {
    |files| == 1 + 2 * |hrefs| && files[0] == ovf &&
    forall k :: 0 <= k < |hrefs| ==>
      files[1 + 2 * k] == Join("images", hrefs[k]) && files[2 + 2 * k] == Join("images", hrefs[k] + ".meta")
  }

  /** The loop of get_files_to_copy over References/File. */
  method PlanFiles(ovf: string, refs: seq<Elem>) returns (files: seq<string>)
    ensures IsPlan(files, ovf, Hrefs(refs))
  {
    files := [ovf];
    var i := 0;
    while i < |refs|
      invariant 0 <= i <= |refs|
      invariant IsPlan(files, ovf, Hrefs(refs[..i]))
    {
      HrefsStep(refs, i);
      if "href" in refs[i].attrs {
        var href := refs[i].attrs["href"];
        PlanStep(files, ovf, Hrefs(refs[..i]), href);
        files := files + [Join("images", href), Join("images", href + ".meta")];
      } else {
        assert Hrefs(refs[..i]) + [] == Hrefs(refs[..i]);
      }
      i := i + 1;
    }
    assert refs[..i] == refs;
  }

  /** The hrefs of the first i + 1 File entries. */
  lemma HrefsStep(refs: seq<Elem>, i: nat)
    requires i < |refs|
    ensures Hrefs(refs[..i + 1]) == Hrefs(refs[..i]) + (if "href" in refs[i].attrs then [refs[i].attrs["href"]] else [])
  {
    assert refs[..i + 1][..i] == refs[..i];
  }

  /** One more href extends the plan by its image and its sidecar. */
  lemma PlanStep(files: seq<string>, ovf: string, hrefs: seq<string>, href: string)
    requires IsPlan(files, ovf, hrefs)
    ensures IsPlan(files + [Join("images", href), Join("images", href + ".meta")], ovf, hrefs + [href])
  {
  }

  /** get_files_to_copy. The descriptor must sit under `master`; None stands for
      the exception raised when it does not parse. */
  method GetFilesToCopy(fs: Archive) returns (r: Option<seq<string>>)
    ensures Find(fs, Suffixed(".ovf")).None? ==> r == Some([])
    ensures Find(fs, Suffixed(".ovf")).Some? && !StartsWith(Find(fs, Suffixed(".ovf")).value, "master") ==> r == Some([])
    ensures Find(fs, Suffixed(".ovf")).Some? && StartsWith(Find(fs, Suffixed(".ovf")).value, "master") ==>
      match Lookup(fs, Find(fs, Suffixed(".ovf")).value)
      case Some(Doc(tree)) => r.Some? && IsPlan(r.value, Find(fs, Suffixed(".ovf")).value, Hrefs(tree.references))
      case _ => r.None?
  {
    var ovf := FindFile(fs, Suffixed(".ovf"));
    if ovf.None? {
      return Some([]);
    }
    if !StartsWith(ovf.value, "master") {
      return Some([]);
    }
    var doc := Lookup(fs, ovf.value);
    if !(doc.Some? && doc.value.Doc?) {
      return None;
    }
    var files := PlanFiles(ovf.value, doc.value.tree.references);
    return Some(files);
  }

  // ---- copy_files_nfs ---------------------------------------------------

  /** One copy: a file of the archive to its place below the remote directory. */
  datatype Copy = Copy(src: string, dst: string)

  predicate IsOvfName(name: string) {
    EndsWith(name, ".ovf")
  }

  /** The copies made for the archive file at path: one for every listed path
      that ends with its name, in the order of the list. */
  function EntryCopies(path: string, files: seq<string>, remote: string): (r: seq<Copy>)
    ensures forall c :: c in r ==> c.src == path
  {
    if files == [] then []
    else
      var n := |files| - 1;
      EntryCopies(path, files[..n], remote) +
        (if EndsWith(files[n], Basename(path)) then [Copy(path, Join(remote, files[n]))] else [])
  }

  /** The copies made as the walk goes, every descriptor being held back. */
  function NonOvfCopies(fs: Archive, files: seq<string>, remote: string): (r: seq<Copy>)
  {
    if fs == [] then []
    else
      var n := |fs| - 1;
      NonOvfCopies(fs[..n], files, remote) +
        (if IsOvfName(Basename(fs[n].path)) then [] else EntryCopies(fs[n].path, files, remote))
  }

  /** The last listed path that ends with name. */
  function LastMatch(files: seq<string>, name: string): (r: Option<string>)
    ensures r.Some? ==> r.value in files && EndsWith(r.value, name)
    ensures r.None? ==> forall p :: p in files ==> !EndsWith(p, name)
  {
    if files == [] then None
    else if EndsWith(files[|files| - 1], name) then Some(files[|files| - 1])
    else
      var r := LastMatch(files[..|files| - 1], name);
      assert forall p :: p in files ==> p in files[..|files| - 1] || p == files[|files| - 1];
      r
  }

  /** The held-back descriptor copy: the last one the walk met. */
  function LastOvfCopy(fs: Archive, files: seq<string>, remote: string): (r: Option<Copy>)
  {
    if fs == [] then None
    else
      var n := |fs| - 1;
      var m := LastMatch(files, Basename(fs[n].path));
      if IsOvfName(Basename(fs[n].path)) && m.Some? then Some(Copy(fs[n].path, Join(remote, m.value)))
      else LastOvfCopy(fs[..n], files, remote)
  }

  /** The inner loop of copy_files_nfs for one file of the walk: the copies it
      makes at once, and the last listed path it matched. */
  method EntryPass(path: string, files: seq<string>, remote: string) returns (added: seq<Copy>, last: Option<string>)
    ensures added == if IsOvfName(Basename(path)) then [] else EntryCopies(path, files, remote)
    ensures last == LastMatch(files, Basename(path))
  {
    var name := Basename(path);
    added, last := [], None;
    var j := 0;
    while j < |files|
      invariant 0 <= j <= |files|
      invariant added == if IsOvfName(name) then [] else EntryCopies(path, files[..j], remote)
      invariant last == LastMatch(files[..j], name)
    {
      assert files[..j + 1][..j] == files[..j];
      if EndsWith(files[j], name) {
        if IsOvfName(name) {
          last := Some(files[j]);
        } else {
          added := added + [Copy(path, Join(remote, files[j]))];
          last := Some(files[j]);
        }
      }
      j := j + 1;
    }
    assert files[..j] == files;
  }

  /** The ordering of copy_files_nfs: the copies in walk order with the
      descriptor moved to the end. It fails when the plan is empty, and when the
      walk met no descriptor, where the source raises UnboundLocalError because
      `ovf_file` was never bound. A plan from get_files_to_copy starts with the
      descriptor found in the archive. */
  method CopyOrder(fs: Archive, files: seq<string>, remote: string) returns (r: Option<seq<Copy>>)
    ensures files == [] ==> r.None?
    ensures files != [] ==> r == match LastOvfCopy(fs, files, remote)
                                 case None => None
                                 case Some(c) => Some(NonOvfCopies(fs, files, remote) + [c])
  {
    if |files| < 1 {
      return None;
    }
    var copies: seq<Copy> := [];
    var deferred: Option<Copy> := None;
    var i := 0;
    while i < |fs|
      invariant 0 <= i <= |fs|
      invariant copies == NonOvfCopies(fs[..i], files, remote)
      invariant deferred == LastOvfCopy(fs[..i], files, remote)
    {
      WalkStep(fs, files, remote, i);
      var added, last := EntryPass(fs[i].path, files, remote);
      copies := copies + added;
      if IsOvfName(Basename(fs[i].path)) && last.Some? {
        deferred := Some(Copy(fs[i].path, Join(remote, last.value)));
      }
      i := i + 1;
    }
    assert fs[..i] == fs;
    if deferred.None? {
      return None;
    }
    return Some(copies + [deferred.value]);
  }

  /** The copies and the held-back copy after one more file of the walk. */
  lemma WalkStep(fs: Archive, files: seq<string>, remote: string, i: nat)
    requires i < |fs|
    ensures var name := Basename(fs[i].path);
      NonOvfCopies(fs[..i + 1], files, remote) ==
        NonOvfCopies(fs[..i], files, remote) + (if IsOvfName(name) then [] else EntryCopies(fs[i].path, files, remote))
    ensures var name := Basename(fs[i].path);
      var m := LastMatch(files, name);
      LastOvfCopy(fs[..i + 1], files, remote) ==
        if IsOvfName(name) && m.Some? then Some(Copy(fs[i].path, Join(remote, m.value))) else LastOvfCopy(fs[..i], files, remote)
  {
    assert fs[..i + 1][..i] == fs[..i];
  }

  // ---- Properties of the plan --------------------------------------------

  /** No descriptor is among the copies made during the walk. */
  lemma {:induction false} NonOvfCopiesHoldNoOvf(fs: Archive, files: seq<string>, remote: string)
    ensures forall c :: c in NonOvfCopies(fs, files, remote) ==> !IsOvfName(Basename(c.src))
  {
    if fs != [] {
      var n := |fs| - 1;
      NonOvfCopiesHoldNoOvf(fs[..n], files, remote);
    }
  }

  /** Every other listed file met by the walk is copied. */
  lemma {:induction false} NonOvfCopiesComplete(fs: Archive, files: seq<string>, remote: string, k: nat, j: nat, p: string)
    requires k < |fs| && fs[k].path == p && j < |files| && EndsWith(files[j], Basename(p)) && !IsOvfName(Basename(p))
    ensures Copy(p, Join(remote, files[j])) in NonOvfCopies(fs, files, remote)
  {
    var n := |fs| - 1;
    if k < n {
      var init := fs[..n];
      assert init[k] == fs[k];
      NonOvfCopiesComplete(init, files, remote, k, j, p);
      CopiesGrow(fs, files, remote, Copy(p, Join(remote, files[j])));
    } else {
      LastFileCopied(fs, files, remote, j);
    }
  }

  /** The last file of the walk, when it is not a descriptor, is copied to every listed path ending with its name. */
  lemma LastFileCopied(fs: Archive, files: seq<string>, remote: string, j: nat)
    requires fs != [] && j < |files| && EndsWith(files[j], Basename(fs[|fs| - 1].path))
    requires !IsOvfName(Basename(fs[|fs| - 1].path))
    ensures Copy(fs[|fs| - 1].path, Join(remote, files[j])) in NonOvfCopies(fs, files, remote)
  {
    EntryCopiesComplete(fs[|fs| - 1].path, files, remote, j);
    CopiesOfLast(fs, files, remote, Copy(fs[|fs| - 1].path, Join(remote, files[j])));
  }

  lemma CopiesGrow(fs: Archive, files: seq<string>, remote: string, c: Copy)
    requires fs != [] && c in NonOvfCopies(fs[..|fs| - 1], files, remote)
    ensures c in NonOvfCopies(fs, files, remote)
  {
  }

  lemma CopiesOfLast(fs: Archive, files: seq<string>, remote: string, c: Copy)
    requires fs != [] && !IsOvfName(Basename(fs[|fs| - 1].path))
    requires c in EntryCopies(fs[|fs| - 1].path, files, remote)
    ensures c in NonOvfCopies(fs, files, remote)
  {
  }

  lemma {:induction false} EntryCopiesComplete(path: string, files: seq<string>, remote: string, j: nat)
    requires j < |files| && EndsWith(files[j], Basename(path))
    ensures Copy(path, Join(remote, files[j])) in EntryCopies(path, files, remote)
  {
    var n := |files| - 1;
    if j < n {
      assert files[..n][j] == files[j];
      EntryCopiesComplete(path, files[..n], remote, j);
    }
  }

  lemma LastOvfCopyIsOvf(fs: Archive, files: seq<string>, remote: string)
    ensures var c := LastOvfCopy(fs, files, remote);
      c.Some? ==> IsOvfName(Basename(c.value.src)) && exists k :: 0 <= k < |fs| && fs[k].path == c.value.src
  {
    if LastOvfCopy(fs, files, remote).Some? {
      var k := LastOvfCopySource(fs, files, remote);
    }
  }

  /** The file of the walk the held-back copy comes from. */
  lemma {:induction false} LastOvfCopySource(fs: Archive, files: seq<string>, remote: string) returns (k: nat)
    requires LastOvfCopy(fs, files, remote).Some?
    ensures k < |fs| && LastOvfCopy(fs, files, remote).value.src == fs[k].path && IsOvfName(Basename(fs[k].path))
  {
    var n := |fs| - 1;
    var p := fs[n].path;
    if IsOvfName(Basename(p)) && LastMatch(files, Basename(p)).Some? {
      k := n;
    } else {
      assert LastOvfCopy(fs, files, remote) == LastOvfCopy(fs[..n], files, remote);
      k := LastOvfCopySource(fs[..n], files, remote);
      assert fs[..n][k] == fs[k];
    }
  }

  /** The descriptor is copied last, and only there. */
  lemma OvfCopiedLast(fs: Archive, files: seq<string>, remote: string, plan: seq<Copy>)
    requires LastOvfCopy(fs, files, remote).Some?
    requires plan == NonOvfCopies(fs, files, remote) + [LastOvfCopy(fs, files, remote).value]
    ensures IsOvfName(Basename(plan[|plan| - 1].src))
    ensures forall k :: 0 <= k < |plan| - 1 ==> !IsOvfName(Basename(plan[k].src))
  {
    NonOvfCopiesHoldNoOvf(fs, files, remote);
    LastOvfCopyIsOvf(fs, files, remote);
    var pre := NonOvfCopies(fs, files, remote);
    forall k | 0 <= k < |plan| - 1 ensures !IsOvfName(Basename(plan[k].src)) {
      assert plan[k] == pre[k] && pre[k] in pre;
    }
  }
}
