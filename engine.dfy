/** What the uploader's editors do to its state, as functions of the state
    before them: the archive, the descriptor, the number of uuid4 values drawn
    and n_id_d. The methods of ImageUploader are proved to compute these. */
module Engine {
  import opened Base
  import opened Ovf
  import opened Fs
  import opened Sidecar
  import opened Sync
  import opened Alloc
  import Passes

  /** The uploader's state: the unpacked archive, the parsed descriptor, how
      many uuid4 values were drawn (the k-th being gen(k)) and the global n_id_d. */
  datatype World = World(fs: Archive, tree: Descriptor, used: nat, nid: Option<DiskIds>)

  // ---- remove_nics, update_ovf_name, update_ovf_id ------------------------

  /** remove_nics: every NIC Item leaves its hardware section; the descriptor
      is written only when something was removed. */
  function NicSpec(w: World, ovf: string): Option<World> {
    if AnyRepeatedNic(w.tree.content) then None
    else
      var t := w.tree.(content := NicContentSpec(w.tree.content));
      Some(w.(tree := t, fs := if AnyNic(w.tree.content) then Write(w.fs, ovf, Doc(t)) else w.fs))
  }

  /** update_ovf_name: exactly one Content/Name, which takes the new name. */
  function NameSpec(w: World, ovf: string, name: string): Option<World> {
    if |w.tree.names| != 1 then None
    else
      var t := w.tree.(names := [name]);
      Some(w.(tree := t, fs := Write(w.fs, ovf, Doc(t))))
  }

  /** The descriptor after update_ovf_id's edits with the uuid u: the
      TemplateId is set to u unless it is the blank template, and the first
      OperatingSystemSection with an id gets u. */
  function StampedTree(tree: Descriptor, u: string): Descriptor
    requires |tree.templateIds| == 1
  {
    var t1 := if tree.templateIds[0] != BlankTemplate then tree.(templateIds := [u]) else tree;
    match FirstStampableFrom(tree.content, 0)
    case None => t1
    case Some(k) => Stamp(t1, k, u)
  }

  /** The renames of update_ovf_id: the descriptor to `<u>.ovf` beside it, then
      its directory to `u`, which fails when the descriptor sits at the archive root. */
  function RenameOvf(fs: Archive, ovf: string, u: string): Option<Archive> {
    var dir := Dirname(ovf);
    match RenameFile(fs, ovf, Join(dir, u + ".ovf"))
    case None => None
    case Some(fs2) =>
      if dir == [] then None else RenameDir(fs2, dir, Join(Dirname(dir), u))
  }

  /** update_ovf_id with the uuid it draws: it needs exactly one TemplateId,
      writes the descriptor only when a section was stamped, then renames. */
  function OvfIdSpec(gen: nat -> string, w: World, ovf: string): Option<World> {
    var u := gen(w.used);
    if |w.tree.templateIds| != 1 then None
    else
      var t := StampedTree(w.tree, u);
      var fs1 := if FirstStampableFrom(w.tree.content, 0).Some? then Write(w.fs, ovf, Doc(t)) else w.fs;
      match RenameOvf(fs1, ovf, u)
      case None => None
      case Some(fs3) => Some(World(fs3, t, Next(w.used), w.nid))
  }

  // ---- Properties of the editors -------------------------------------------

  /** remove_nics leaves no NIC in a hardware section and keeps every other
      Item; running it again changes nothing and writes nothing. */
  lemma NicSpecEffect(w: World, ovf: string)
    requires NicSpec(w, ovf).Some?
    ensures var r := NicSpec(w, ovf).value;
      r.used == w.used && r.nid == w.nid && |r.tree.content| == |w.tree.content| &&
      forall k :: 0 <= k < |w.tree.content| && IsHardwareSection(w.tree.content[k]) ==>
        forall x :: x in r.tree.content[k].items <==> x in w.tree.content[k].items && !IsNic(x)
    ensures NicSpec(NicSpec(w, ovf).value, ovf) == NicSpec(w, ovf)
  {
    var r := NicSpec(w, ovf).value;
    var c := w.tree.content;
    forall k | 0 <= k < |c| && IsHardwareSection(c[k])
      ensures forall x :: x in r.tree.content[k].items <==> x in c[k].items && !IsNic(x)
    {
      KeepNonNicsMembers(c[k].items);
    }
    var c2 := r.tree.content;
    forall k | 0 <= k < |c2| && IsHardwareSection(c2[k])
      ensures c2[k].items == KeepNonNics(c2[k].items)
      ensures forall j :: 0 <= j < |c2[k].items| ==> !IsNic(c2[k].items[j]) && !RepeatedNic(c2[k].items[j])
    {
      KeepNonNicsIdempotent(c[k].items);
      KeepNonNicsMembers(c[k].items);
      forall j | 0 <= j < |c2[k].items| ensures !IsNic(c2[k].items[j]) && !RepeatedNic(c2[k].items[j]) {
        assert c2[k].items[j] in c2[k].items;
        NicFreeNotRepeated(c2[k].items[j]);
      }
    }
    assert NicContentSpec(c2) == c2;
  }

  /** An Item that is no NIC has no NIC ResourceType child at all. */
  lemma NicFreeNotRepeated(item: Item)
    requires !IsNic(item)
    ensures !RepeatedNic(item)
  {
  }

  /** update_ovf_name leaves exactly the new name and touches nothing else of
      the descriptor; naming twice is naming once. */
  lemma NameSpecEffect(w: World, ovf: string, name: string)
    ensures NameSpec(w, ovf, name).Some? <==> |w.tree.names| == 1
    ensures NameSpec(w, ovf, name).Some? ==>
      var r := NameSpec(w, ovf, name).value;
      r.tree.names == [name] && r.tree.content == w.tree.content && r.tree.references == w.tree.references &&
      r.tree.sections == w.tree.sections && r.tree.templateIds == w.tree.templateIds &&
      Lookup(r.fs, ovf) == Some(Doc(r.tree)) &&
      NameSpec(r, ovf, name) == Some(r.(fs := Write(r.fs, ovf, Doc(r.tree))))
  {
    if |w.tree.names| == 1 {
      var r := NameSpec(w, ovf, name).value;
      WrittenIsRead(w.fs, ovf, Doc(r.tree));
    }
  }

  /** What write_ovf_file wrote is what is read back. */
  lemma WrittenIsRead(fs: Archive, p: string, d: Data)
    ensures Lookup(Write(fs, p, d), p) == Some(d)
  {
    var r := Write(fs, p, d);
    match IndexOf(fs, p)
    case Some(k) =>
      assert forall j :: 0 <= j < k ==> r[j] == fs[j];
      assert IndexOf(r, p) == Some(k);
    case None =>
      assert forall j :: 0 <= j < |fs| ==> r[j] == fs[j];
      assert r[|fs|] == Entry(p, d);
      assert IndexOf(r, p) == Some(|fs|);
  }

  /** update_ovf_id's edits: the TemplateId becomes u unless it is the blank
      template, in which case it stays; the first stampable section takes u and
      nothing else changes. */
  lemma StampedTreeEffect(tree: Descriptor, u: string)
    requires |tree.templateIds| == 1
    ensures var r, s := StampedTree(tree, u), FirstStampableFrom(tree.content, 0);
      (tree.templateIds == [BlankTemplate] ==> r.templateIds == [BlankTemplate]) &&
      (tree.templateIds != [BlankTemplate] ==> r.templateIds == [u]) &&
      r.names == tree.names && r.references == tree.references && r.sections == tree.sections &&
      |r.content| == |tree.content| &&
      (s.Some? ==> r.content[s.value].attrs == tree.content[s.value].attrs["id" := u] &&
                   r.content[s.value].kind == tree.content[s.value].kind) &&
      forall k :: 0 <= k < |tree.content| && s != Some(k) ==> r.content[k] == tree.content[k]
  {
    assert tree.templateIds == [tree.templateIds[0]];
  }

  /** update_ovf_id fails without exactly one TemplateId or when the descriptor
      sits at the archive root; otherwise it draws one uuid. */
  lemma OvfIdSpecEffect(gen: nat -> string, w: World, ovf: string)
    ensures |w.tree.templateIds| != 1 || Dirname(ovf) == [] ==> OvfIdSpec(gen, w, ovf).None?
    ensures OvfIdSpec(gen, w, ovf).Some? ==>
      var r := OvfIdSpec(gen, w, ovf).value;
      r.used == w.used + 1 && r.nid == w.nid && r.tree == StampedTree(w.tree, gen(w.used))
  {
  }

  /** update_ovf_id on a descriptor `<parent>/<cur>/<x>.ovf`: afterwards the
      descriptor is `<parent>/<u>/<u>.ovf`, holding the stamped tree when a
      section was stamped and the old contents otherwise, given that the new
      names were free. */
  lemma OvfIdMovesDescriptor(gen: nat -> string, w: World, parent: string, cur: string, x: string)
    requires UniquePaths(w.fs) && parent != [] && parent[|parent| - 1] != '/'
    requires IsId(cur) && IsId(x) && IsId(gen(w.used)) && cur != gen(w.used)
    requires IndexOf(w.fs, parent + "/" + cur + "/" + x + ".ovf").Some?
    requires |w.tree.templateIds| == 1
    requires !Occupied(w.fs, parent + "/" + cur + "/" + gen(w.used) + ".ovf")
    requires !Occupied(w.fs, parent + "/" + gen(w.used))
    ensures var ovf := parent + "/" + cur + "/" + x + ".ovf";
      var r := OvfIdSpec(gen, w, ovf);
      r.Some? && UniquePaths(r.value.fs) &&
      Lookup(r.value.fs, parent + "/" + gen(w.used) + "/" + gen(w.used) + ".ovf") ==
        if FirstStampableFrom(w.tree.content, 0).Some? then Some(Doc(r.value.tree)) else Lookup(w.fs, ovf)
  {
    var u := gen(w.used);
    var dir, newDir := parent + "/" + cur, parent + "/" + u;
    var ovf, dst := dir + "/" + x + ".ovf", dir + "/" + u + ".ovf";
    var i := IndexOf(w.fs, ovf).value;
    var t := StampedTree(w.tree, u);
    var stamped := FirstStampableFrom(w.tree.content, 0).Some?;
    var fs1 := if stamped then Write(w.fs, ovf, Doc(t)) else w.fs;
    if stamped {
      WriteKeepsFree(w.fs, i, Doc(t), dst);
      WriteKeepsFree(w.fs, i, Doc(t), newDir);
    }
    LookupAt(w.fs, i);
    RenameOvfMoves(fs1, parent, cur, x, u, i);
    OvfIdSpecRenamed(gen, w, ovf, RenameOvf(fs1, ovf, u).value);
  }

  /** update_ovf_id when its renames produce fs3. */
  lemma OvfIdSpecRenamed(gen: nat -> string, w: World, ovf: string, fs3: Archive)
    requires |w.tree.templateIds| == 1
    requires var t := StampedTree(w.tree, gen(w.used));
      RenameOvf(if FirstStampableFrom(w.tree.content, 0).Some? then Write(w.fs, ovf, Doc(t)) else w.fs, ovf, gen(w.used)) == Some(fs3)
    ensures OvfIdSpec(gen, w, ovf) == Some(World(fs3, StampedTree(w.tree, gen(w.used)), Next(w.used), w.nid))
  {
  }

  /** The renames of update_ovf_id carry the descriptor at index i to `<parent>/<u>/<u>.ovf`. */
  lemma RenameOvfMoves(fs: Archive, parent: string, cur: string, x: string, u: string, i: nat)
    requires UniquePaths(fs) && parent != [] && parent[|parent| - 1] != '/'
    requires IsId(cur) && IsId(x) && IsId(u) && cur != u
    requires i < |fs| && fs[i].path == parent + "/" + cur + "/" + x + ".ovf"
    requires !Occupied(fs, parent + "/" + cur + "/" + u + ".ovf") && !Occupied(fs, parent + "/" + u)
    ensures var r := RenameOvf(fs, parent + "/" + cur + "/" + x + ".ovf", u);
      r.Some? && UniquePaths(r.value) && Lookup(r.value, parent + "/" + u + "/" + u + ".ovf") == Some(fs[i].data)
  {
    var dir, newDir := parent + "/" + cur, parent + "/" + u;
    var ovf, dst := dir + "/" + x + ".ovf", dir + "/" + (u + ".ovf");
    OvfFileRenamed(fs, parent, cur, x, u, i);
    var fs2 := fs[i := Entry(dst, fs[i].data)];
    OvfFileNames(parent, cur, x, u);
    OvfDirNames(parent, cur, u);
    MoveIntoDir(fs2, i, dir, newDir, u + ".ovf");
    RenameOvfSteps(fs, ovf, u, fs2, RenameDir(fs2, dir, newDir).value);
    assert newDir + "/" + (u + ".ovf") == parent + "/" + u + "/" + u + ".ovf";
  }

  /** The first rename of update_ovf_id changes the descriptor's entry in place
      and leaves the new directory's name free. */
  lemma OvfFileRenamed(fs: Archive, parent: string, cur: string, x: string, u: string, i: nat)
    requires UniquePaths(fs) && parent != [] && parent[|parent| - 1] != '/'
    requires IsId(cur) && IsId(x) && IsId(u) && cur != u
    requires i < |fs| && fs[i].path == parent + "/" + cur + "/" + x + ".ovf"
    requires !Occupied(fs, parent + "/" + cur + "/" + u + ".ovf") && !Occupied(fs, parent + "/" + u)
    ensures var dst := parent + "/" + cur + "/" + (u + ".ovf");
      var fs2 := fs[i := Entry(dst, fs[i].data)];
      RenameFile(fs, fs[i].path, dst) == Some(fs2) && UniquePaths(fs2) && !Occupied(fs2, parent + "/" + u)
  {
    var dst := parent + "/" + cur + "/" + u + ".ovf";
    assert dst == parent + "/" + cur + "/" + (u + ".ovf");
    OvfSiblingNames(parent, cur, x, u);
    RenameFileInPlace(fs, fs[i].path, dst, i);
    FreeAfterReplace(fs, i, Entry(dst, fs[i].data), parent + "/" + u);
  }

  /** RenameOvf is the file rename followed by the directory rename. */
  lemma RenameOvfSteps(fs: Archive, ovf: string, u: string, fs2: Archive, fs3: Archive)
    requires Dirname(ovf) != []
    requires RenameFile(fs, ovf, Join(Dirname(ovf), u + ".ovf")) == Some(fs2)
    requires RenameDir(fs2, Dirname(ovf), Join(Dirname(Dirname(ovf)), u)) == Some(fs3)
    ensures RenameOvf(fs, ovf, u) == Some(fs3)
  {
  }

  /** The descriptor's directory and the renamed descriptor's path. */
  lemma OvfFileNames(parent: string, cur: string, x: string, u: string)
    requires parent != [] && parent[|parent| - 1] != '/'
    requires IsId(cur) && IsId(x) && IsId(u)
    ensures var dir := parent + "/" + cur;
      Dirname(dir + "/" + x + ".ovf") == dir && dir != [] && Join(dir, u + ".ovf") == dir + "/" + u + ".ovf"
  {
    var dir := parent + "/" + cur;
    assert dir[|dir| - 1] == cur[|cur| - 1];
    NoSlashAppend(x, ".ovf");
    NoSlashAppend(u, ".ovf");
    DirnameOfJoin(dir, x + ".ovf");
    JoinSlash(dir, x + ".ovf");
    JoinSlash(dir, u + ".ovf");
    assert dir + "/" + (x + ".ovf") == dir + "/" + x + ".ovf";
    assert dir + "/" + (u + ".ovf") == dir + "/" + u + ".ovf";
  }

  /** The directory names of update_ovf_id: the descriptor's directory, its
      parent, and the new directory beside it. */
  lemma OvfDirNames(parent: string, cur: string, u: string)
    requires parent != [] && parent[|parent| - 1] != '/'
    requires IsId(cur) && IsId(u) && cur != u
    ensures var dir, newDir := parent + "/" + cur, parent + "/" + u;
      Dirname(dir) == parent && Join(parent, u) == newDir && !Under(newDir, dir) && dir != newDir
  {
    var dir := parent + "/" + cur;
    GroupDirNames(parent, cur, u, u);
    assert dir != parent + "/" + u by {
      assert dir[|parent| + 1..] == cur && (parent + "/" + u)[|parent| + 1..] == u;
    }
  }

  /** The descriptor and its renamed copy lie in the old directory, apart from
      the new one, and moving the directory carries the copy into it. */
  lemma OvfSiblingNames(parent: string, cur: string, x: string, u: string)
    requires parent != [] && parent[|parent| - 1] != '/'
    requires IsId(cur) && IsId(x) && IsId(u) && cur != u
    ensures var dir, newDir := parent + "/" + cur, parent + "/" + u;
      var ovf, dst := dir + "/" + x + ".ovf", dir + "/" + u + ".ovf";
      Under(dst, dir) && dst != newDir && !Under(dst, newDir) && ovf != newDir && !Under(ovf, newDir) &&
      Moved(dst, dir, newDir) == newDir + "/" + (u + ".ovf")
  {
    var dir := parent + "/" + cur;
    GroupDirNames(parent, cur, u, u);
    NoSlashAppend(x, ".ovf");
    NoSlashAppend(u, ".ovf");
    InSiblingDir(parent, cur, u, u + ".ovf");
    InSiblingDir(parent, cur, u, x + ".ovf");
    assert dir + "/" + (x + ".ovf") == dir + "/" + x + ".ovf";
    assert dir + "/" + (u + ".ovf") == dir + "/" + u + ".ovf";
  }

  // ---- __update_disk_id ---------------------------------------------------

  /** The state of __update_disk_id between Items: the uploader's state, the two
      dictionaries, and for each disk so far, in order, its old group id, the
      group id proposed for it, the group id it was given, its old and new
      image ids and its chain root. */
  datatype Run = Run(w: World, groupIds: map<string, string>, imageIds: map<string, string>,
                     oldGroups: seq<string>, proposals: seq<string>, groups: seq<string>,
                     olds: seq<string>, news: seq<string>, roots: seq<Option<string>>)

  /** The index of the draw after draw n. */
  function Next(n: nat): nat { n + 1 }

  function Start(w: World): Run {
    Run(w, map[], map[], [], [], [], [], [], [])
  }

  /** The old group id of a disk Item: the dirname of its HostResource. */
  function OldGroup(item: Item): string
    requires IsDisk(item)
  {
    match ChildText(item, "HostResource")
    case Some(Some(h)) => Dirname(h)
    case _ => []
  }

  /** The records after a disk of old group g was remapped to m with the two
      uuids a and b, and the archive became fs1. */
  function Recorded(r: Run, g: string, a: string, b: string, m: Passes.Remapped, fs1: Archive): Run {
    Run(World(fs1, m.tree, r.w.used + 2, Some(m.ids)), m.groupIds, m.imageIds,
        r.oldGroups + [g], r.proposals + [b], r.groups + [m.ids.newGroup],
        r.olds + [m.oldImage], r.news + [a], r.roots + [m.ids.parentCombined])
  }

  /** One disk: __remap_id with the two uuids it draws, then __rewrite_ovf. */
  function DiskStep(gen: nat -> string, r: Run, ovf: string, s: nat, i: nat): Option<Run>
    requires s < |r.w.tree.content| && i < |r.w.tree.content[s].items| && IsDisk(r.w.tree.content[s].items[i])
  {
    var a, b := gen(r.w.used), gen(Next(r.w.used));
    AfterRemap(r, ovf, OldGroup(r.w.tree.content[s].items[i]), a, b,
               Passes.RemapSpec(r.w.tree, s, i, a, b, r.groupIds, r.imageIds))
  }

  /** The rest of a disk's step once __remap_id gave res: __rewrite_ovf on the
      archive with the remapped descriptor written, and the records. */
  function AfterRemap(r: Run, ovf: string, g: string, a: string, b: string, res: Option<Passes.Remapped>): Option<Run> {
    match res
    case None => None
    case Some(m) =>
      match RewriteImage(Write(r.w.fs, ovf, Doc(m.tree)), m.oldImage, m.ids)
      case None => None
      case Some(fs1) => Some(Recorded(r, g, a, b, m, fs1))
  }

  /** One Item of a hardware section: a disk is remapped, any other Item skipped. */
  function ItemStep(gen: nat -> string, r: Run, ovf: string, p: (nat, nat)): Option<Run> {
    if p.0 < |r.w.tree.content| && p.1 < |r.w.tree.content[p.0].items| && IsDisk(r.w.tree.content[p.0].items[p.1])
    then DiskStep(gen, r, ovf, p.0, p.1)
    else Some(r)
  }

  function SectionPositions(s: nat, n: nat): (r: seq<(nat, nat)>)
    ensures |r| == n && forall j :: 0 <= j < n ==> r[j] == (s, j)
  {
    seq(n, j requires 0 <= j < n => (s, j))
  }

  /** The Items of the hardware sections, as (section, item) in document order. */
  function ItemPositions(secs: seq<Section>): seq<(nat, nat)> {
    if secs == [] then []
    else
      var n := |secs| - 1;
      ItemPositions(secs[..n]) + (if IsHardwareSection(secs[n]) then SectionPositions(n, |secs[n].items|) else [])
  }

  /** A step of an Item loop: the run after the Item at a position, or None
      when that Item makes the loop fail. */
  type Step = (Run, (nat, nat)) -> Option<Run>

  /** The step of __update_disk_id. */
  function DiskSteps(gen: nat -> string, ovf: string): Step {
    (r: Run, p: (nat, nat)) => ItemStep(gen, r, ovf, p)
  }

  /** st is the step of __update_disk_id. */
  ghost predicate IsDiskStep(st: Step, gen: nat -> string, ovf: string) {
    forall r: Run, p: (nat, nat) {:trigger ItemStep(gen, r, ovf, p)} :: st(r, p) == ItemStep(gen, r, ovf, p)
  }

  /** The loop of st over the Items at ps from r; the first failure ends it. */
  function Loop(st: Step, r: Run, ps: seq<(nat, nat)>): Option<Run>
    decreases |ps|
  {
    if ps == [] then Some(r)
    else
      match Loop(st, r, ps[..|ps| - 1])
      case None => None
      case Some(r1) => st(r1, ps[|ps| - 1])
  }

  /** The loop of __update_disk_id over the Items at ps. */
  function DiskLoop(gen: nat -> string, r: Run, ovf: string, ps: seq<(nat, nat)>): Option<Run> {
    Loop(DiskSteps(gen, ovf), r, ps)
  }

  /** The loop of st over the first n Items of section k, from r. */
  function SectionLoop(st: Step, r: Run, k: nat, n: nat): Option<Run>
    decreases n
  {
    if n == 0 then Some(r)
    else
      match SectionLoop(st, r, k, n - 1)
      case None => None
      case Some(r1) => st(r1, (k, n - 1))
  }

  /** The three passes after the loop: the sidecars' PUUIDs, the Items' Parents,
      and the DiskSections' parentRefs set to the chain root of n_id_d, which
      fails when no disk was ever processed. */
  function Sweeps(w: World, imageIds: map<string, string>, ovf: string): Option<World> {
    if !SidecarsReadable(w.fs) then None
    else
      var fs1 := PuuidSweepSpec(w.fs, imageIds);
      if DiskWithoutParent(w.tree.content) then None
      else
        var t1 := w.tree.(content := ParentContentSpec(w.tree.content, imageIds));
        var fs2 := Write(fs1, ovf, Doc(t1));
        if w.nid.None? then None
        else
          var root := w.nid.value.parentCombined;
          if root.None? && AnyParentRef(t1.sections) then None
          else
            var t2 := if root.Some? then t1.(sections := SweepSectionsSpec(t1.sections, root.value)) else t1;
            Some(World(Write(fs2, ovf, Doc(t2)), t2, w.used, w.nid))
  }

  /** __update_disk_id. */
  function DiskIdSpec(gen: nat -> string, w: World, ovf: string): Option<World> {
    match DiskLoop(gen, Start(w), ovf, ItemPositions(w.tree.content))
    case None => None
    case Some(r) => Sweeps(r.w, r.imageIds, ovf)
  }

  // ---- Properties of __update_disk_id ---------------------------------------

  /** What the loop has recorded after any number of disks: two uuids were
      drawn per disk, the group proposal always, in order. */
  predicate LogsAligned(gen: nat -> string, r: Run, u0: nat) {
    |r.oldGroups| == |r.olds| && |r.proposals| == |r.olds| && |r.news| == |r.olds| && |r.roots| == |r.olds| &&
    r.w.used == u0 + 2 * |r.olds| &&
    forall k :: 0 <= k < |r.olds| ==> r.news[k] == gen(u0 + 2 * k) && r.proposals[k] == gen(u0 + 2 * k + 1)
  }

  /** The group map is first-seen-wins over the disks' old groups (GroupMap),
      the image map last-wins over their old image ids (ImageMap). */
  predicate MapsFollowLogs(r: Run) {
    |r.oldGroups| == |r.proposals| && |r.olds| == |r.news| &&
    r.groupIds == GroupMap(r.oldGroups, r.proposals) && r.imageIds == ImageMap(r.olds, r.news)
  }

  /** n_id_d is the record of the last disk, or what it was before when there was none. */
  predicate NidIsLast(r: Run, nid0: Option<DiskIds>) {
    (r.olds == [] ==> r.w.nid == nid0) &&
    (r.olds != [] ==>
      |r.oldGroups| == |r.olds| && |r.news| == |r.olds| && |r.roots| == |r.olds| &&
      var n := |r.olds| - 1;
      r.oldGroups[n] in r.groupIds &&
      r.w.nid == Some(DiskIds(r.news[n], r.groupIds[r.oldGroups[n]],
                              r.groupIds[r.oldGroups[n]] + "/" + r.news[n], r.roots[n])))
  }

  /** Every disk was given the group Alloc.NewGroupOf assigns it: the one
      proposed for the first disk that had its old group. */
  predicate GroupsFollowLogs(r: Run) {
    |r.oldGroups| == |r.proposals| && |r.groups| == |r.oldGroups| &&
    forall k :: 0 <= k < |r.groups| ==> r.groups[k] == NewGroupOf(r.oldGroups, r.proposals, k)
  }

  predicate Consistent(gen: nat -> string, r: Run, u0: nat, nid0: Option<DiskIds>) {
    LogsAligned(gen, r, u0) && MapsFollowLogs(r) && GroupsFollowLogs(r) && NidIsLast(r, nid0)
  }

  lemma GroupMapAppend(og: seq<string>, pr: seq<string>, g: string, b: string)
    requires |og| == |pr|
    ensures GroupMap(og + [g], pr + [b]) == if g in GroupMap(og, pr) then GroupMap(og, pr) else GroupMap(og, pr)[g := b]
  {
    assert (og + [g])[..|og|] == og && (pr + [b])[..|og|] == pr;
    assert (og + [g])[..|og| + 1] == og + [g] && (pr + [b])[..|og| + 1] == pr + [b];
  }

  lemma ImageMapAppend(olds: seq<string>, news: seq<string>, o: string, a: string)
    requires |olds| == |news|
    ensures ImageMap(olds + [o], news + [a]) == ImageMap(olds, news)[o := a]
  {
    assert (olds + [o])[..|olds|] == olds && (news + [a])[..|olds|] == news;
  }

  /** What one disk adds to the records. */
  lemma DiskStepRecords(gen: nat -> string, r: Run, ovf: string, s: nat, i: nat)
    requires s < |r.w.tree.content| && i < |r.w.tree.content[s].items| && IsDisk(r.w.tree.content[s].items[i])
    requires DiskStep(gen, r, ovf, s, i).Some?
    ensures var a, b := gen(r.w.used), gen(Next(r.w.used));
      var m := Passes.RemapSpec(r.w.tree, s, i, a, b, r.groupIds, r.imageIds);
      m.Some? &&
      exists fs1 :: DiskStep(gen, r, ovf, s, i) == Some(Recorded(r, OldGroup(r.w.tree.content[s].items[i]), a, b, m.value, fs1))
  {
    var a, b := gen(r.w.used), gen(Next(r.w.used));
    var m := Passes.RemapSpec(r.w.tree, s, i, a, b, r.groupIds, r.imageIds).value;
    var fs1 := RewriteImage(Write(r.w.fs, ovf, Doc(m.tree)), m.oldImage, m.ids).value;
    assert DiskStep(gen, r, ovf, s, i) == Some(Recorded(r, OldGroup(r.w.tree.content[s].items[i]), a, b, m, fs1));
  }

  /** One disk's ids agree: its InstanceId is the new image id logged for it,
      its HostResource is `<group>/<image>` with the group logged for it, and
      n_id_d holds the same ids. */
  lemma DiskStepIds(gen: nat -> string, r: Run, ovf: string, s: nat, i: nat)
    requires s < |r.w.tree.content| && i < |r.w.tree.content[s].items| && IsDisk(r.w.tree.content[s].items[i])
    requires DiskStep(gen, r, ovf, s, i).Some?
    requires |r.groups| == |r.olds| && |r.news| == |r.olds| && |r.roots| == |r.olds|
    ensures var r2 := DiskStep(gen, r, ovf, s, i).value;
      var n := |r.olds|;
      n < |r2.groups| && n < |r2.news| && n < |r2.roots| &&
      s < |r2.w.tree.content| && i < |r2.w.tree.content[s].items| &&
      ChildText(r2.w.tree.content[s].items[i], "InstanceId") == Some(Some(r2.news[n])) &&
      ChildText(r2.w.tree.content[s].items[i], "HostResource") == Some(Some(r2.groups[n] + "/" + r2.news[n])) &&
      r2.w.nid == Some(DiskIds(r2.news[n], r2.groups[n], r2.groups[n] + "/" + r2.news[n], r2.roots[n]))
  {
    var a, b := gen(r.w.used), gen(Next(r.w.used));
    DiskStepRecords(gen, r, ovf, s, i);
    Passes.RemapSpecEffect(r.w.tree, s, i, a, b, r.groupIds, r.imageIds);
    var m := Passes.RemapSpec(r.w.tree, s, i, a, b, r.groupIds, r.imageIds).value;
    var fs1 :| DiskStep(gen, r, ovf, s, i) == Some(Recorded(r, OldGroup(r.w.tree.content[s].items[i]), a, b, m, fs1));
  }

  /** One disk's files follow its ids: when __rewrite_ovf finds its image and
      sidecar in `<parent>/<cur>` of the archive with the remapped descriptor
      written, both end in `<parent>/<group>` under the new image id, with the
      group and image id logged for the disk. */
  lemma DiskStepMovesFiles(gen: nat -> string, r: Run, ovf: string, s: nat, i: nat, m: Passes.Remapped,
                           fs: Archive, parent: string, cur: string, t: string)
    requires s < |r.w.tree.content| && i < |r.w.tree.content[s].items| && IsDisk(r.w.tree.content[s].items[i])
    requires Passes.RemapSpec(r.w.tree, s, i, gen(r.w.used), gen(Next(r.w.used)), r.groupIds, r.imageIds) == Some(m)
    requires fs == Write(r.w.fs, ovf, Doc(m.tree))
    requires UniquePaths(fs) && parent != [] && parent[|parent| - 1] != '/'
    requires IsId(cur) && IsId(m.oldImage) && IsId(m.ids.newImage) && IsId(m.ids.newGroup) && m.oldImage != m.ids.newImage
    requires Find(fs, Named(m.oldImage)) == Some(parent + "/" + cur + "/" + m.oldImage)
    requires Find(fs, Named(m.oldImage + ".meta")) == Some(parent + "/" + cur + "/" + m.oldImage + ".meta")
    requires Lookup(fs, parent + "/" + cur + "/" + m.oldImage + ".meta") == Some(Text(t))
    requires !Occupied(fs, parent + "/" + cur + "/" + m.ids.newImage)
    requires !Occupied(fs, parent + "/" + cur + "/" + m.ids.newImage + ".meta")
    requires cur == m.ids.newGroup || !Occupied(fs, parent + "/" + m.ids.newGroup)
    ensures DiskStep(gen, r, ovf, s, i).Some?
    ensures var r2 := DiskStep(gen, r, ovf, s, i).value;
      var n := |r.groups|;
      |r2.groups| == n + 1 && |r2.news| == |r.news| + 1 &&
      var dir := parent + "/" + r2.groups[n];
      var img := r2.news[|r.news|];
      UniquePaths(r2.w.fs) &&
      Lookup(r2.w.fs, dir + "/" + img) == Lookup(fs, parent + "/" + cur + "/" + m.oldImage) &&
      Lookup(r2.w.fs, dir + "/" + img + ".meta") == Some(Text(Sub(t, ImageKey, r2.groups[n])))
  {
    Passes.RemapSpecEffect(r.w.tree, s, i, gen(r.w.used), gen(Next(r.w.used)), r.groupIds, r.imageIds);
    RewriteImageMovesFiles(fs, parent, cur, m.oldImage, m.ids, t);
    var fs1 := RewriteImage(fs, m.oldImage, m.ids).value;
    var g := OldGroup(r.w.tree.content[s].items[i]);
    assert DiskStep(gen, r, ovf, s, i) == Some(Recorded(r, g, gen(r.w.used), gen(Next(r.w.used)), m, fs1));
  }

  /** Recording a disk the way __remap_id chose its ids keeps the records consistent. */
  lemma RecordedConsistent(gen: nat -> string, r: Run, g: string, a: string, b: string, m: Passes.Remapped,
                           fs1: Archive, u0: nat, nid0: Option<DiskIds>)
    requires Consistent(gen, r, u0, nid0)
    requires a == gen(r.w.used) && b == gen(Next(r.w.used))
    requires m.groupIds == (if g in r.groupIds then r.groupIds else r.groupIds[g := b])
    requires m.imageIds == r.imageIds[m.oldImage := a]
    requires m.ids.newImage == a && m.ids.newGroup == Passes.ChosenGroup(r.groupIds, g, b)
    requires m.ids.combined == m.ids.newGroup + "/" + a
    ensures Consistent(gen, Recorded(r, g, a, b, m, fs1), u0, nid0)
  {
    RecordedLogs(gen, r, g, a, b, m, fs1, u0);
    RecordedMaps(r, g, a, b, m, fs1, nid0);
    RecordedGroups(r, g, a, b, m, fs1);
  }

  lemma RecordedGroups(r: Run, g: string, a: string, b: string, m: Passes.Remapped, fs1: Archive)
    requires MapsFollowLogs(r) && GroupsFollowLogs(r)
    requires m.ids.newGroup == Passes.ChosenGroup(r.groupIds, g, b)
    ensures GroupsFollowLogs(Recorded(r, g, a, b, m, fs1))
  {
    var r2 := Recorded(r, g, a, b, m, fs1);
    NewGroupOfAppend(r.oldGroups, r.proposals, g, b);
    assert r2.groups == r.groups + [m.ids.newGroup];
  }

  lemma RecordedLogs(gen: nat -> string, r: Run, g: string, a: string, b: string, m: Passes.Remapped,
                     fs1: Archive, u0: nat)
    requires LogsAligned(gen, r, u0)
    requires a == gen(r.w.used) && b == gen(Next(r.w.used))
    ensures LogsAligned(gen, Recorded(r, g, a, b, m, fs1), u0)
  {
    var r2 := Recorded(r, g, a, b, m, fs1);
    var n := |r.olds|;
    assert r2.news[n] == gen(u0 + 2 * n) && r2.proposals[n] == gen(u0 + 2 * n + 1);
    assert forall k :: 0 <= k < n ==> r2.news[k] == r.news[k] && r2.proposals[k] == r.proposals[k];
  }

  lemma RecordedMaps(r: Run, g: string, a: string, b: string, m: Passes.Remapped, fs1: Archive, nid0: Option<DiskIds>)
    requires MapsFollowLogs(r) && |r.roots| == |r.olds| && |r.oldGroups| == |r.olds|
    requires m.groupIds == (if g in r.groupIds then r.groupIds else r.groupIds[g := b])
    requires m.imageIds == r.imageIds[m.oldImage := a]
    requires m.ids.newImage == a && m.ids.newGroup == Passes.ChosenGroup(r.groupIds, g, b)
    requires m.ids.combined == m.ids.newGroup + "/" + a
    ensures MapsFollowLogs(Recorded(r, g, a, b, m, fs1))
    ensures NidIsLast(Recorded(r, g, a, b, m, fs1), nid0)
  {
    GroupMapAppend(r.oldGroups, r.proposals, g, b);
    ImageMapAppend(r.olds, r.news, m.oldImage, a);
    var r2 := Recorded(r, g, a, b, m, fs1);
    var n := |r.olds|;
    assert r2.oldGroups[n] == g && r2.news[n] == a && r2.roots[n] == m.ids.parentCombined;
    assert r2.groupIds[g] == m.ids.newGroup;
  }

  /** One disk keeps the records consistent. */
  lemma DiskStepConsistent(gen: nat -> string, r: Run, ovf: string, s: nat, i: nat, u0: nat, nid0: Option<DiskIds>)
    requires s < |r.w.tree.content| && i < |r.w.tree.content[s].items| && IsDisk(r.w.tree.content[s].items[i])
    requires Consistent(gen, r, u0, nid0) && DiskStep(gen, r, ovf, s, i).Some?
    ensures Consistent(gen, DiskStep(gen, r, ovf, s, i).value, u0, nid0)
  {
    var a, b := gen(r.w.used), gen(Next(r.w.used));
    var item := r.w.tree.content[s].items[i];
    DiskStepRecords(gen, r, ovf, s, i);
    Passes.RemapSpecEffect(r.w.tree, s, i, a, b, r.groupIds, r.imageIds);
    var m := Passes.RemapSpec(r.w.tree, s, i, a, b, r.groupIds, r.imageIds).value;
    var g := OldGroup(item);
    assert g == Dirname(ChildText(item, "HostResource").value.value);
    var fs1 :| DiskStep(gen, r, ovf, s, i) == Some(Recorded(r, g, a, b, m, fs1));
    RecordedConsistent(gen, r, g, a, b, m, fs1, u0, nid0);
  }

  /** The loop keeps the records consistent. */
  lemma {:induction false} DiskLoopConsistent(gen: nat -> string, r: Run, ovf: string, ps: seq<(nat, nat)>,
                                              u0: nat, nid0: Option<DiskIds>)
    requires Consistent(gen, r, u0, nid0)
    ensures DiskLoop(gen, r, ovf, ps).Some? ==> Consistent(gen, DiskLoop(gen, r, ovf, ps).value, u0, nid0)
    decreases |ps|
  {
    if ps != [] && DiskLoop(gen, r, ovf, ps).Some? {
      DiskLoopConsistent(gen, r, ovf, ps[..|ps| - 1], u0, nid0);
      var r1 := DiskLoop(gen, r, ovf, ps[..|ps| - 1]).value;
      var p := ps[|ps| - 1];
      assert DiskLoop(gen, r, ovf, ps) == ItemStep(gen, r1, ovf, p);
      if p.0 < |r1.w.tree.content| && p.1 < |r1.w.tree.content[p.0].items| && IsDisk(r1.w.tree.content[p.0].items[p.1]) {
        DiskStepConsistent(gen, r1, ovf, p.0, p.1, u0, nid0);
      }
    }
  }

  /** __update_disk_id's records over the whole descriptor. */
  lemma DiskIdRecords(gen: nat -> string, w: World, ovf: string)
    ensures var r := DiskLoop(gen, Start(w), ovf, ItemPositions(w.tree.content));
      r.Some? ==> Consistent(gen, r.value, w.used, w.nid)
  {
    DiskLoopConsistent(gen, Start(w), ovf, ItemPositions(w.tree.content), w.used, w.nid);
  }

  /** After the loop, two disks that shared an old group directory were given
      the same new group, so their HostResources and directories agree. */
  lemma DiskGroupsShared(gen: nat -> string, w: World, ovf: string, i: nat, j: nat)
    ensures var r := DiskLoop(gen, Start(w), ovf, ItemPositions(w.tree.content));
      r.Some? && i < |r.value.oldGroups| && j < |r.value.oldGroups| && r.value.oldGroups[i] == r.value.oldGroups[j] ==>
      i < |r.value.groups| && j < |r.value.groups| && r.value.groups[i] == r.value.groups[j]
  {
    DiskIdRecords(gen, w, ovf);
    var r := DiskLoop(gen, Start(w), ovf, ItemPositions(w.tree.content));
    if r.Some? && i < |r.value.oldGroups| && j < |r.value.oldGroups| && r.value.oldGroups[i] == r.value.oldGroups[j] {
      SharedOldGroupSameNewGroup(r.value.oldGroups, r.value.proposals, i, j);
    }
  }

  /** After the loop, when uuid4 never repeats, disks from different old group
      directories were given different new groups. */
  lemma DiskGroupsApart(gen: nat -> string, w: World, ovf: string, i: nat, j: nat)
    requires forall x: nat, y: nat :: x != y ==> gen(x) != gen(y)
    ensures var r := DiskLoop(gen, Start(w), ovf, ItemPositions(w.tree.content));
      r.Some? && i < |r.value.oldGroups| && j < |r.value.oldGroups| && r.value.oldGroups[i] != r.value.oldGroups[j] ==>
      i < |r.value.groups| && j < |r.value.groups| && r.value.groups[i] != r.value.groups[j]
  {
    DiskIdRecords(gen, w, ovf);
    var r := DiskLoop(gen, Start(w), ovf, ItemPositions(w.tree.content));
    if r.Some? && i < |r.value.oldGroups| && j < |r.value.oldGroups| && r.value.oldGroups[i] != r.value.oldGroups[j] {
      var pr := r.value.proposals;
      assert forall a, b :: 0 <= a < b < |pr| ==> pr[a] != pr[b] by {
        forall a, b | 0 <= a < b < |pr| ensures pr[a] != pr[b] {
          assert pr[a] == gen(w.used + 2 * a + 1) && pr[b] == gen(w.used + 2 * b + 1);
        }
      }
      DistinctOldGroupsDistinctNewGroups(r.value.oldGroups, pr, i, j);
    }
  }

  /** The chain root a disk leaves in n_id_d is its own: the new combined id when
      its DiskSection entry is the root marker, else none, whatever the disks
      before it recorded. */
  lemma DiskStepRoot(gen: nat -> string, r: Run, ovf: string, s: nat, i: nat)
    requires s < |r.w.tree.content| && i < |r.w.tree.content[s].items| && IsDisk(r.w.tree.content[s].items[i])
    requires DiskStep(gen, r, ovf, s, i).Some?
    ensures var r2 := DiskStep(gen, r, ovf, s, i).value;
      var o := r2.olds[|r2.olds| - 1];
      r2.w.nid.Some? &&
      r2.w.nid.value.parentCombined == (if HasRootMarker(r.w.tree.sections, o) then Some(r2.w.nid.value.combined) else None)
  {
  }

  /** The parentRef pass rewrites every DiskSection with the root n_id_d holds;
      without one it fails unless no parentRef is set, and it fails when n_id_d
      was never set. */
  lemma SweepsRoot(w: World, imageIds: map<string, string>, ovf: string)
    ensures w.nid.None? ==> Sweeps(w, imageIds, ovf).None?
    ensures Sweeps(w, imageIds, ovf).Some? ==>
      var root := w.nid.value.parentCombined;
      (root.Some? ==> Sweeps(w, imageIds, ovf).value.tree.sections == SweepSectionsSpec(w.tree.sections, root.value)) &&
      (root.None? ==> !AnyParentRef(w.tree.sections))
  {
  }

  /** The parentRef pass runs with the chain root of the last disk; it fails
      when no disk was processed and n_id_d was never set. */
  lemma SweepsUseLastRoot(gen: nat -> string, w: World, ovf: string)
    ensures var r := DiskLoop(gen, Start(w), ovf, ItemPositions(w.tree.content));
      r.Some? && r.value.olds != [] && DiskIdSpec(gen, w, ovf).Some? ==>
      |r.value.roots| == |r.value.olds| &&
      var root := r.value.roots[|r.value.olds| - 1];
      (root.Some? ==> DiskIdSpec(gen, w, ovf).value.tree.sections ==
                        SweepSectionsSpec(r.value.w.tree.sections, root.value)) &&
      (root.None? ==> !AnyParentRef(r.value.w.tree.sections))
    ensures var r := DiskLoop(gen, Start(w), ovf, ItemPositions(w.tree.content));
      r.Some? && r.value.olds == [] && w.nid.None? ==> DiskIdSpec(gen, w, ovf).None?
  {
    DiskIdRecords(gen, w, ovf);
    var r := DiskLoop(gen, Start(w), ovf, ItemPositions(w.tree.content));
    if r.Some? {
      assert DiskIdSpec(gen, w, ovf) == Sweeps(r.value.w, r.value.imageIds, ovf);
      assert NidIsLast(r.value, w.nid);
      SweepsRoot(r.value.w, r.value.imageIds, ovf);
    }
  }

  // ---- The loop of __update_disk_id taken one Item at a time -----------------

  /** The step of __update_disk_id is what IsDiskStep describes. */
  lemma DiskStepsAgree(gen: nat -> string, ovf: string)
    ensures IsDiskStep(DiskSteps(gen, ovf), gen, ovf)
  {
  }

  /** One more Item: the loop so far, then that Item's step. */
  lemma LoopAppend(st: Step, r: Run, ps: seq<(nat, nat)>, p: (nat, nat))
    ensures Loop(st, r, ps + [p]) ==
      match Loop(st, r, ps)
      case None => None
      case Some(r1) => st(r1, p)
  {
    assert (ps + [p])[..|ps|] == ps;
  }

  /** A failure ends the loop: once the Items at ps fail, so does any longer run. */
  lemma {:induction false} LoopFailure(st: Step, r: Run, ps: seq<(nat, nat)>, qs: seq<(nat, nat)>)
    requires ps <= qs && Loop(st, r, ps).None?
    ensures Loop(st, r, qs).None?
    decreases |qs|
  {
    if qs != ps {
      var n := |qs| - 1;
      assert ps <= qs[..n];
      LoopFailure(st, r, ps, qs[..n]);
    }
  }

  /** The Items of the first k + 1 sections: those of the first k, then section k's. */
  lemma ItemPositionsStep(secs: seq<Section>, k: nat)
    requires k < |secs|
    ensures ItemPositions(secs[..k + 1]) ==
      ItemPositions(secs[..k]) + (if IsHardwareSection(secs[k]) then SectionPositions(k, |secs[k].items|) else [])
  {
    assert secs[..k + 1][..k] == secs[..k];
  }

  /** The Items of the first k sections come first among all of them. */
  lemma {:induction false} ItemPositionsPrefix(secs: seq<Section>, k: nat)
    requires k <= |secs|
    ensures ItemPositions(secs[..k]) <= ItemPositions(secs)
    decreases |secs| - k
  {
    if k == |secs| {
      assert secs[..k] == secs;
    } else {
      ItemPositionsStep(secs, k);
      ItemPositionsPrefix(secs, k + 1);
    }
  }

  /** One Item of section k after j: the positions grow by (k, j). */
  lemma SectionPositionsStep(pre: seq<(nat, nat)>, k: nat, j: nat)
    ensures pre + SectionPositions(k, j + 1) == (pre + SectionPositions(k, j)) + [(k, j)]
  {
    assert SectionPositions(k, j + 1) == SectionPositions(k, j) + [(k, j)];
  }

  /** The loop over the first n Items of section k after the Items at pre is
      the loop over pre followed by the loop over that section. */
  lemma {:induction false} LoopSection(st: Step, r: Run, pre: seq<(nat, nat)>, k: nat, n: nat)
    ensures Loop(st, r, pre + SectionPositions(k, n)) ==
      match Loop(st, r, pre)
      case None => None
      case Some(r1) => SectionLoop(st, r1, k, n)
  {
    if n == 0 {
      assert pre + SectionPositions(k, 0) == pre;
    } else {
      SectionPositionsStep(pre, k, n - 1);
      LoopAppend(st, r, pre + SectionPositions(k, n - 1), (k, n - 1));
      LoopSection(st, r, pre, k, n - 1);
    }
  }

  /** A failure ends the loop over a section. */
  lemma {:induction false} SectionLoopFailure(st: Step, r: Run, k: nat, j: nat, n: nat)
    requires j <= n && SectionLoop(st, r, k, j).None?
    ensures SectionLoop(st, r, k, n).None?
    decreases n
  {
    if j < n {
      SectionLoopFailure(st, r, k, j, n - 1);
    }
  }

  /** An Item's step keeps the number of sections and of Items in each. */
  lemma ItemStepShape(gen: nat -> string, r: Run, ovf: string, p: (nat, nat))
    requires ItemStep(gen, r, ovf, p).Some?
    ensures SameShape(r.w.tree, ItemStep(gen, r, ovf, p).value.w.tree)
  {
    var t := r.w.tree;
    if p.0 < |t.content| && p.1 < |t.content[p.0].items| && IsDisk(t.content[p.0].items[p.1]) {
      var a, b := gen(r.w.used), gen(Next(r.w.used));
      var res := Passes.RemapSpec(t, p.0, p.1, a, b, r.groupIds, r.imageIds);
      assert ItemStep(gen, r, ovf, p) == DiskStep(gen, r, ovf, p.0, p.1);
      assert DiskStep(gen, r, ovf, p.0, p.1) == AfterRemap(r, ovf, OldGroup(t.content[p.0].items[p.1]), a, b, res);
      Passes.RemapSpecShape(t, p.0, p.1, a, b, r.groupIds, r.imageIds);
    }
  }

  // ---- update_ovf_xml --------------------------------------------------------

  /** The editors update_ovf_xml runs on the descriptor at ovf, in its order:
      remove_nics, update_ovf_name, __update_disk_id and last update_ovf_id,
      each only when configured; the first failure ends the run. An empty new
      name counts as none, as Python's truth test does. */
  function XmlEdits(gen: nat -> string, w: World, ovf: string,
                    macAddress: bool, newName: string, instanceId: bool, renameOvf: bool): Option<World>
  {
    var w1 := if macAddress then NicSpec(w, ovf) else Some(w);
    if w1.None? then None
    else
      var w2 := if newName != [] then NameSpec(w1.value, ovf, newName) else w1;
      if w2.None? then None
      else
        IdEdits(gen, w2.value, ovf, instanceId, renameOvf)
  }

  /** The editors of update_ovf_xml that change ids: __update_disk_id, then
      update_ovf_id, each only when configured. */
  function IdEdits(gen: nat -> string, w: World, ovf: string, instanceId: bool, renameOvf: bool): Option<World> {
    var w3 := if instanceId then DiskIdSpec(gen, w, ovf) else Some(w);
    if w3.None? then None
    else if renameOvf then OvfIdSpec(gen, w3.value, ovf)
    else w3
  }

  /** update_ovf_xml: find the first `*.ovf`, parse it, run the editors. */
  function XmlSpec(gen: nat -> string, w: World,
                   macAddress: bool, newName: string, instanceId: bool, renameOvf: bool): Option<World>
  {
    match Find(w.fs, Suffixed(".ovf"))
    case None => None
    case Some(ovf) =>
      match Lookup(w.fs, ovf)
      case Some(Doc(t)) => XmlEdits(gen, w.(tree := t), ovf, macAddress, newName, instanceId, renameOvf)
      case _ => None
  }

  /** update_ovf_xml on a descriptor found at ovf that parses to t. */
  lemma XmlSpecFound(gen: nat -> string, w: World, ovf: string, t: Descriptor,
                     macAddress: bool, newName: string, instanceId: bool, renameOvf: bool)
    requires Find(w.fs, Suffixed(".ovf")) == Some(ovf) && Lookup(w.fs, ovf) == Some(Doc(t))
    ensures XmlSpec(gen, w, macAddress, newName, instanceId, renameOvf) ==
      XmlEdits(gen, w.(tree := t), ovf, macAddress, newName, instanceId, renameOvf)
  {
  }

  /** update_ovf_xml fails without a descriptor or when it does not parse. */
  lemma XmlSpecNeedsDescriptor(gen: nat -> string, w: World, macAddress: bool, newName: string, instanceId: bool, renameOvf: bool)
    requires XmlSpec(gen, w, macAddress, newName, instanceId, renameOvf).Some?
    ensures Find(w.fs, Suffixed(".ovf")).Some?
    ensures Lookup(w.fs, Find(w.fs, Suffixed(".ovf")).value).Some?
    ensures Lookup(w.fs, Find(w.fs, Suffixed(".ovf")).value).value.Doc?
  {
  }

  /** With no editor configured update_ovf_xml only parses the descriptor. */
  lemma XmlSpecNothingConfigured(gen: nat -> string, w: World, ovf: string, t: Descriptor)
    requires Find(w.fs, Suffixed(".ovf")) == Some(ovf) && Lookup(w.fs, ovf) == Some(Doc(t))
    ensures XmlSpec(gen, w, false, [], false, false) == Some(w.(tree := t))
  {
    XmlSpecFound(gen, w, ovf, t, false, [], false, false);
    XmlEditsNothing(gen, w.(tree := t), ovf);
  }

  /** No editor configured: the state is left as it is. */
  lemma XmlEditsNothing(gen: nat -> string, w: World, ovf: string)
    ensures XmlEdits(gen, w, ovf, false, [], false, false) == Some(w)
  {
  }
}
