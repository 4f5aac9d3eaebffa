/** The cross-file synchronizer: what update_meta_file, the file part of
    __rewrite_ovf and __update_meta_file_puuid do to the archive. */
module Sync {
  import opened Base
  import opened Fs
  import opened Sidecar

  /** n_id_d: the ids chosen for the disk being processed, and the chain root
      recorded while processing it. */
  datatype DiskIds = DiskIds(newImage: string, newGroup: string, combined: string, parentCombined: Option<string>)

  /** update_meta_file: find `<old>.meta` anywhere, point every IMAGE= line at
      the new group, and rename it to `<new>.meta` in its own directory. */
  function MetaUpdate(fs: Archive, oldImage: string, newImage: string, group: string): Option<Archive> {
    match Find(fs, Named(oldImage + ".meta"))
    case None => None
    case Some(mp) =>
      match Lookup(fs, mp)
      case Some(Text(t)) =>
        var written := Write(fs, mp, Text(Sub(t, ImageKey, group)));
        RenameFile(written, mp, Join(Dirname(mp), newImage + ".meta"))
      case _ => None
  }

  /** __rewrite_ovf after the descriptor is written: rename the image file to the
      new image id, update its sidecar, rename its directory to the new group. */
  function RewriteImage(fs: Archive, oldImage: string, ids: DiskIds): Option<Archive> {
    match Find(fs, Named(oldImage))
    case None => None
    case Some(img) =>
      var dir := Dirname(img);
      match RenameFile(fs, img, Join(dir, ids.newImage))
      case None => None
      case Some(renamed) =>
        match MetaUpdate(renamed, oldImage, ids.newImage, ids.newGroup)
        case None => None
        case Some(updated) =>
          if dir == [] then None
          else RenameDir(updated, dir, Join(Dirname(dir), Dirname(ids.combined)))
  }

  /** The PUUID rewrite of one sidecar text: only when the text has exactly one
      PUUID= line and its value is an old image id. */
  function FixPuuid(t: string, imageIds: map<string, string>): string {
    var found := FindAll(t, ParentKey);
    if |found| == 1 && found[0] in imageIds then Sub(t, ParentKey, imageIds[found[0]]) else t
  }

  predicate IsSidecar(e: Entry) {
    Matches(Basename(e.path), Suffixed(".meta"))
  }

  /** Every sidecar of the archive is a text file (otherwise the sweep fails). */
  predicate SidecarsReadable(fs: Archive) {
    forall k :: 0 <= k < |fs| && IsSidecar(fs[k]) ==> fs[k].data.Text?
  }

  function PuuidEntry(e: Entry, imageIds: map<string, string>): Entry {
    if IsSidecar(e) && e.data.Text? then Entry(e.path, Text(FixPuuid(e.data.text, imageIds))) else e
  }

  function PuuidSweepSpec(fs: Archive, imageIds: map<string, string>): (r: Archive)
    ensures |r| == |fs|
  {
    seq(|fs|, k requires 0 <= k < |fs| => PuuidEntry(fs[k], imageIds))
  }

  // ---- Properties -------------------------------------------------------

  predicate NoNewline(v: string) {
    forall k :: 0 <= k < |v| ==> v[k] != '\n'
  }

  /** A child disk's sidecar whose single PUUID names an old image id is left
      naming that image's new id, still on a single PUUID line. A sidecar with
      no PUUID line, several, or one naming an unknown id is untouched. */
  lemma PuuidFollowsParent(t: string, imageIds: map<string, string>, parent: string)
    requires FindAll(t, ParentKey) == [parent] && parent in imageIds && NoNewline(imageIds[parent])
    ensures FindAll(FixPuuid(t, imageIds), ParentKey) == [imageIds[parent]]
  {
    FindAllAfterSub(t, ParentKey, imageIds[parent]);
    assert Repeat(imageIds[parent], 1) == [imageIds[parent]];
  }

  /** After update_meta_file's substitution every IMAGE= line names the new
      group, as many IMAGE= lines remain, and no line is added or lost. */
  lemma ImageLinesNameGroup(t: string, group: string)
    requires NoNewline(group)
    ensures forall v :: v in FindAll(Sub(t, ImageKey, group), ImageKey) ==> v == group
    ensures |FindAll(Sub(t, ImageKey, group), ImageKey)| == |FindAll(t, ImageKey)|
    ensures Newlines(Sub(t, ImageKey, group)) == Newlines(t)
  {
    FindAllAfterSub(t, ImageKey, group);
    SubKeepsLines(t, ImageKey, group);
  }

  lemma IdNoNewline(s: string)
    requires IsId(s)
    ensures NoNewline(s)
  {
  }

  lemma StartsWithUnderPrefix(p: string, s: string, t: string)
    ensures StartsWith(p + s, p + t) ==> StartsWith(s, t)
  {
    if |p + t| <= |p + s| {
      assert (p + s)[|p|..|p + t|] == s[..|t|];
      assert (p + t)[|p|..] == t;
    }
  }

  /** A path 'x/...' never lies inside a directory 'y' other than x, when x and y are plain names. */
  lemma ComponentsApart(x: string, y: string, rest: string)
    requires forall k :: 0 <= k < |x| ==> x[k] != '/'
    requires forall k :: 0 <= k < |y| ==> y[k] != '/'
    requires rest == [] || rest[0] == '/'
    ensures StartsWith(x + rest, y + "/") ==> x == y
  {
    var s, t := x + rest, y + "/";
    if |y| < |x| {
      assert s[..|t|][|y|] == s[|y|] == x[|y|];
    } else if |y| == |x| {
      assert |t| <= |s| ==> s[..|t|][..|y|] == x && t[..|y|] == y;
    } else if rest != [] && |t| <= |s| {
      assert s[..|t|][|x|] == s[|x|] == rest[0];
      assert t[|x|] == y[|x|];
    }
  }

  /** A path 'd/x/...' never lies inside a sibling directory 'd/y' when x and y
      are different plain names. */
  lemma SiblingsApart(d: string, x: string, y: string, rest: string)
    requires forall k :: 0 <= k < |x| ==> x[k] != '/'
    requires forall k :: 0 <= k < |y| ==> y[k] != '/'
    requires x != y && (rest == [] || rest[0] == '/')
    ensures !StartsWith(d + "/" + x + rest, d + "/" + y + "/")
  {
    var p := d + "/";
    assert d + "/" + x + rest == p + (x + rest);
    assert d + "/" + y + "/" == p + (y + "/");
    StartsWithUnderPrefix(p, x + rest, y + "/");
    ComponentsApart(x, y, rest);
  }

  lemma NoSlashAppend(a: string, b: string)
    requires forall k :: 0 <= k < |a| ==> a[k] != '/'
    requires forall k :: 0 <= k < |b| ==> b[k] != '/'
    ensures forall k :: 0 <= k < |a + b| ==> (a + b)[k] != '/'
  {
    forall k | 0 <= k < |a + b| ensures (a + b)[k] != '/' {
      if k >= |a| { assert (a + b)[k] == b[k - |a|]; }
    }
  }

  lemma NotId(x: string, ext: string)
    requires IsId(x) && ext != [] && ext[0] == '.'
    ensures !IsId(x + ext)
  {
    assert (x + ext)[|x|] == '.';
  }

  /** update_meta_file on an archive holding `<dir>/<old>.meta`, the first sidecar
      of that name in walk order: the sidecar is rewritten and renamed in place,
      next to where it was. */
  lemma MetaUpdateInPlace(fs: Archive, dir: string, oldImage: string, newImage: string, group: string, j: nat, t: string)
    requires UniquePaths(fs) && j < |fs|
    requires dir != [] && dir[|dir| - 1] != '/' && IsId(oldImage) && IsId(newImage) && oldImage != newImage
    requires Find(fs, Named(oldImage + ".meta")) == Some(dir + "/" + oldImage + ".meta")
    requires fs[j] == Entry(dir + "/" + oldImage + ".meta", Text(t))
    requires !Occupied(fs, dir + "/" + newImage + ".meta")
    ensures MetaUpdate(fs, oldImage, newImage, group)
         == Some(fs[j := Entry(dir + "/" + newImage + ".meta", Text(Sub(t, ImageKey, group)))])
    ensures UniquePaths(fs[j := Entry(dir + "/" + newImage + ".meta", Text(Sub(t, ImageKey, group)))])
  {
    var meta, newMeta := dir + "/" + oldImage + ".meta", dir + "/" + newImage + ".meta";
    SidecarNames(dir, oldImage, newImage);
    LookupAt(fs, j);
    MetaUpdateSteps(fs, oldImage, newImage, group, meta, t);
    WriteThenRename(fs, j, newMeta, Text(Sub(t, ImageKey, group)));
  }

  lemma MetaUpdateSteps(fs: Archive, oldImage: string, newImage: string, group: string, mp: string, t: string)
    requires Find(fs, Named(oldImage + ".meta")) == Some(mp) && Lookup(fs, mp) == Some(Text(t))
    ensures MetaUpdate(fs, oldImage, newImage, group)
         == RenameFile(Write(fs, mp, Text(Sub(t, ImageKey, group))), mp, Join(Dirname(mp), newImage + ".meta"))
  {
  }

  /** The two sidecar paths `<dir>/<old>.meta` and `<dir>/<new>.meta`. */
  lemma SidecarNames(dir: string, oldImage: string, newImage: string)
    requires dir != [] && dir[|dir| - 1] != '/' && IsId(oldImage) && IsId(newImage) && oldImage != newImage
    ensures var meta, newMeta := dir + "/" + oldImage + ".meta", dir + "/" + newImage + ".meta";
      Dirname(meta) == dir && Join(dir, newImage + ".meta") == newMeta &&
      meta != newMeta && !Under(meta, newMeta)
  {
    var x, y := oldImage + ".meta", newImage + ".meta";
    assert x != y by {
      assert x[..|oldImage|] == oldImage && y[..|newImage|] == newImage;
    }
    NoSlashAppend(oldImage, ".meta");
    NoSlashAppend(newImage, ".meta");
    JoinSlash(dir, x);
    JoinSlash(dir, y);
    DirnameOfJoin(dir, x);
    SiblingsApart(dir, x, y, []);
    assert dir + "/" + x + [] == dir + "/" + x == dir + "/" + oldImage + ".meta";
    assert dir + "/" + y == dir + "/" + newImage + ".meta";
    assert (dir + "/" + x)[|dir| + 1..] == x && (dir + "/" + y)[|dir| + 1..] == y;
  }

  lemma RewriteImageSteps(fs: Archive, oldImage: string, ids: DiskIds, img: string, renamed: Archive, updated: Archive)
    requires Find(fs, Named(oldImage)) == Some(img) && Dirname(img) != []
    requires RenameFile(fs, img, Join(Dirname(img), ids.newImage)) == Some(renamed)
    requires MetaUpdate(renamed, oldImage, ids.newImage, ids.newGroup) == Some(updated)
    ensures RewriteImage(fs, oldImage, ids)
         == RenameDir(updated, Dirname(img), Join(Dirname(Dirname(img)), Dirname(ids.combined)))
  {
  }

  /** The paths of one disk's files inside `<dir>`, before and after renaming. */
  lemma ImageNames(dir: string, oldImage: string, newImage: string)
    requires dir != [] && dir[|dir| - 1] != '/' && IsId(oldImage) && IsId(newImage) && oldImage != newImage
    ensures Dirname(dir + "/" + oldImage) == dir && Join(dir, newImage) == dir + "/" + newImage
    ensures Basename(dir + "/" + oldImage) == oldImage && Basename(dir + "/" + newImage) == newImage
    ensures oldImage != oldImage + ".meta" && newImage != oldImage + ".meta"
    ensures dir + "/" + newImage != dir + "/" + newImage + ".meta"
    ensures !Under(dir + "/" + newImage, dir + "/" + newImage + ".meta")
    ensures Under(dir + "/" + newImage, dir) && Under(dir + "/" + newImage + ".meta", dir)
  {
    JoinSlash(dir, oldImage);
    JoinSlash(dir, newImage);
    DirnameOfJoin(dir, oldImage);
    BasenameOfJoin(dir, oldImage);
    BasenameOfJoin(dir, newImage);
    NotId(oldImage, ".meta");
    NoSlashAppend(newImage, ".meta");
    assert newImage != newImage + ".meta";
    SiblingsApart(dir, newImage, newImage + ".meta", []);
    assert dir + "/" + newImage + [] == dir + "/" + newImage;
    assert (dir + "/" + newImage)[..|dir| + 1] == dir + "/";
    assert (dir + "/" + newImage + ".meta")[..|dir| + 1] == dir + "/";
  }

  /** __rewrite_ovf before the directory rename: the image file and then its
      sidecar are renamed in place inside `<dir>`. */
  lemma RenameImageAndSidecar(fs: Archive, dir: string, oldImage: string, ids: DiskIds, t: string)
      returns (i: nat, j: nat, renamed: Archive, updated: Archive)
    requires UniquePaths(fs)
    requires dir != [] && dir[|dir| - 1] != '/' && IsId(oldImage) && IsId(ids.newImage) && oldImage != ids.newImage
    requires Find(fs, Named(oldImage)) == Some(dir + "/" + oldImage)
    requires Find(fs, Named(oldImage + ".meta")) == Some(dir + "/" + oldImage + ".meta")
    requires Lookup(fs, dir + "/" + oldImage + ".meta") == Some(Text(t))
    requires !Occupied(fs, dir + "/" + ids.newImage) && !Occupied(fs, dir + "/" + ids.newImage + ".meta")
    ensures i < |fs| && j < |fs| && i != j && fs[i].path == dir + "/" + oldImage
    ensures RenameFile(fs, dir + "/" + oldImage, Join(dir, ids.newImage)) == Some(renamed)
    ensures MetaUpdate(renamed, oldImage, ids.newImage, ids.newGroup) == Some(updated)
    ensures updated == fs[i := Entry(dir + "/" + ids.newImage, fs[i].data)]
                        [j := Entry(dir + "/" + ids.newImage + ".meta", Text(Sub(t, ImageKey, ids.newGroup)))]
    ensures UniquePaths(updated)
  {
    var img, meta := dir + "/" + oldImage, dir + "/" + oldImage + ".meta";
    var newImg, newMeta := dir + "/" + ids.newImage, dir + "/" + ids.newImage + ".meta";
    ImageNames(dir, oldImage, ids.newImage);
    i := FindIndex(fs, Named(oldImage)).value;
    j := FindIndex(fs, Named(oldImage + ".meta")).value;
    assert |meta| == |img| + 5;
    RenameFileInPlace(fs, img, newImg, i);
    renamed := fs[i := Entry(newImg, fs[i].data)];
    FindAfterReplace(fs, i, Entry(newImg, fs[i].data), Named(oldImage + ".meta"));
    LookupAt(fs, j);
    FreeAfterReplace(fs, i, Entry(newImg, fs[i].data), newMeta);
    MetaUpdateInPlace(renamed, dir, oldImage, ids.newImage, ids.newGroup, j, t);
    updated := renamed[j := Entry(newMeta, Text(Sub(t, ImageKey, ids.newGroup)))];
  }

  /** The group directory `<parent>/<cur>` and its sibling `<parent>/<group>`. */
  lemma GroupDirNames(parent: string, cur: string, group: string, newImage: string)
    requires parent != [] && parent[|parent| - 1] != '/' && IsId(cur) && IsId(group) && IsId(newImage)
    ensures var dir := parent + "/" + cur;
      dir != [] && dir[|dir| - 1] != '/' && Dirname(dir) == parent &&
      Dirname(group + "/" + newImage) == group && Join(parent, group) == parent + "/" + group
    ensures cur != group ==> !Under(parent + "/" + group, parent + "/" + cur)
  {
    var dir := parent + "/" + cur;
    assert dir[|dir| - 1] == cur[|cur| - 1];
    JoinSlash(parent, cur);
    DirnameOfJoin(parent, cur);
    JoinSlash(group, newImage);
    DirnameOfJoin(group, newImage);
    JoinSlash(parent, group);
    if cur != group {
      SiblingsApart(parent, group, cur, []);
      assert parent + "/" + group + [] == parent + "/" + group;
    }
  }

  /** A file `<parent>/<cur>/<n>` and the sibling directory `<parent>/<group>`. */
  lemma InSiblingDir(parent: string, cur: string, group: string, n: string)
    requires IsId(cur) && IsId(group) && cur != group
    requires forall k :: 0 <= k < |n| ==> n[k] != '/'
    requires !Under(parent + "/" + group, parent + "/" + cur)
    ensures var p := parent + "/" + cur + "/" + n;
      Under(p, parent + "/" + cur) && p != parent + "/" + group && !Under(p, parent + "/" + group) &&
      Moved(p, parent + "/" + cur, parent + "/" + group) == parent + "/" + group + "/" + n
  {
    var dir, p := parent + "/" + cur, parent + "/" + cur + "/" + n;
    assert p[..|dir| + 1] == dir + "/";
    assert p[|dir|..] == "/" + n;
    SiblingsApart(parent, cur, group, "/" + n);
    assert parent + "/" + cur + ("/" + n) == p;
  }

  /** __rewrite_ovf on one disk whose image and sidecar sit in `<parent>/<cur>`:
      afterwards both sit in `<parent>/<new group>` under the new image id, the
      image's contents unchanged and the sidecar's IMAGE= lines rewritten. The
      group directory is renamed unless it already carries the new group id,
      which happens for the second disk of a shared group. */
  lemma RewriteImageMovesFiles(fs: Archive, parent: string, cur: string, oldImage: string, ids: DiskIds, t: string)
    requires UniquePaths(fs)
    requires parent != [] && parent[|parent| - 1] != '/'
    requires IsId(cur) && IsId(oldImage) && IsId(ids.newImage) && IsId(ids.newGroup) && oldImage != ids.newImage
    requires ids.combined == ids.newGroup + "/" + ids.newImage
    requires Find(fs, Named(oldImage)) == Some(parent + "/" + cur + "/" + oldImage)
    requires Find(fs, Named(oldImage + ".meta")) == Some(parent + "/" + cur + "/" + oldImage + ".meta")
    requires Lookup(fs, parent + "/" + cur + "/" + oldImage + ".meta") == Some(Text(t))
    requires !Occupied(fs, parent + "/" + cur + "/" + ids.newImage)
    requires !Occupied(fs, parent + "/" + cur + "/" + ids.newImage + ".meta")
    requires cur == ids.newGroup || !Occupied(fs, parent + "/" + ids.newGroup)
    ensures RewriteImage(fs, oldImage, ids).Some?
    ensures var r := RewriteImage(fs, oldImage, ids).value;
      UniquePaths(r) &&
      Lookup(r, parent + "/" + ids.newGroup + "/" + ids.newImage) == Lookup(fs, parent + "/" + cur + "/" + oldImage) &&
      Lookup(r, parent + "/" + ids.newGroup + "/" + ids.newImage + ".meta") == Some(Text(Sub(t, ImageKey, ids.newGroup)))
  {
    var dir, newDir := parent + "/" + cur, parent + "/" + ids.newGroup;
    GroupDirNames(parent, cur, ids.newGroup, ids.newImage);
    var i, j, renamed, updated := RenameImageAndSidecar(fs, dir, oldImage, ids, t);
    ImageNames(dir, oldImage, ids.newImage);
    RewriteImageSteps(fs, oldImage, ids, dir + "/" + oldImage, renamed, updated);
    LookupAt(fs, i);
    MoveGroupDir(fs, parent, cur, ids.newGroup, ids.newImage, i, j, fs[i].data, Text(Sub(t, ImageKey, ids.newGroup)));
  }

  lemma MetaNameNoSlash(n: string)
    requires IsId(n)
    ensures forall k :: 0 <= k < |n + ".meta"| ==> (n + ".meta")[k] != '/'
  {
    NoSlashAppend(n, ".meta");
  }

  /** Renaming the group directory `<parent>/<cur>` to `<parent>/<group>`, free
      unless it is the same directory, carries the renamed image and sidecar along. */
  lemma MoveGroupDir(fs: Archive, parent: string, cur: string, group: string, newImage: string,
                     i: nat, j: nat, di: Data, dj: Data)
    requires i < |fs| && j < |fs| && i != j
    requires var dir := parent + "/" + cur;
      UniquePaths(fs[i := Entry(dir + "/" + newImage, di)][j := Entry(dir + "/" + newImage + ".meta", dj)])
    requires IsId(cur) && IsId(group) && IsId(newImage)
    requires cur != group ==> !Under(parent + "/" + group, parent + "/" + cur) && !Occupied(fs, parent + "/" + group)
    ensures var dir, newDir := parent + "/" + cur, parent + "/" + group;
      var updated := fs[i := Entry(dir + "/" + newImage, di)][j := Entry(dir + "/" + newImage + ".meta", dj)];
      RenameDir(updated, dir, newDir).Some? &&
      UniquePaths(RenameDir(updated, dir, newDir).value) &&
      Lookup(RenameDir(updated, dir, newDir).value, newDir + "/" + newImage) == Some(di) &&
      Lookup(RenameDir(updated, dir, newDir).value, newDir + "/" + newImage + ".meta") == Some(dj)
  {
    var dir, newDir := parent + "/" + cur, parent + "/" + group;
    var newImg, newMeta := dir + "/" + newImage, dir + "/" + newImage + ".meta";
    var mid := fs[i := Entry(newImg, di)];
    var updated := mid[j := Entry(newMeta, dj)];
    assert updated[i] == Entry(newImg, di) && updated[j] == Entry(newMeta, dj);
    if cur == group {
      assert newImg[..|dir| + 1] == dir + "/";
      assert RenameDir(updated, dir, newDir) == Some(updated);
      LookupAt(updated, i);
      LookupAt(updated, j);
    } else {
      InSiblingDir(parent, cur, group, newImage);
      MetaNameNoSlash(newImage);
      InSiblingDir(parent, cur, group, newImage + ".meta");
      assert parent + "/" + cur + "/" + (newImage + ".meta") == newMeta;
      assert newDir + "/" + (newImage + ".meta") == newDir + "/" + newImage + ".meta";
      FreeAfterReplace(fs, i, Entry(newImg, di), newDir);
      FreeAfterReplace(mid, j, Entry(newMeta, dj), newDir);
      RenameDirMoves(updated, dir, newDir, i);
      var r := RenameDir(updated, dir, newDir).value;
      LookupAt(r, i);
      LookupAt(r, j);
    }
  }
}
