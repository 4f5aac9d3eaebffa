/** ImageUploader: the object whose methods rewrite an unpacked OVF archive in
    place. Its fields are the archive, the descriptor tree being edited, the
    number of uuid4 values drawn so far and the module-global n_id_d; each
    method is proved to compute the matching function of Engine. */
module Uploader {
  import opened Base
  import opened Ovf
  import opened Fs
  import opened Sidecar
  import opened Sync
  import opened Engine
  import Passes

  class ImageUploader {
    var fs: Archive
    var tree: Descriptor
    var used: nat
    var nid: Option<DiskIds>
    /** The uuid4 source: the k-th value drawn is gen(k). */
    const gen: nat -> string

    function State(): World
      reads this
    {
      World(fs, tree, used, nid)
    }

    constructor (archive: Archive, ids: nat -> string)
      ensures fs == archive && gen == ids && used == 0 && nid.None?
      ensures tree == Descriptor([], [], [], [], [])
    {
      fs := archive;
      gen := ids;
      used := 0;
      nid := None;
      tree := Descriptor([], [], [], [], []);
    }

    /** write_ovf_file: the descriptor file gets the current tree. */
    method WriteOvfFile(ovf: string)
      modifies this`fs
      ensures fs == Write(old(fs), ovf, Doc(tree))
      ensures Lookup(fs, ovf) == Some(Doc(tree))
    {
      fs := Write(fs, ovf, Doc(tree));
      WrittenIsRead(old(fs), ovf, Doc(tree));
    }

    /** __update_meta_file_puuid: every sidecar whose single PUUID= line names an
        old image id is rewritten to name the new one; a sidecar that cannot be
        read as text makes the pass fail. */
    method UpdateMetaFilePuuid(imageIds: map<string, string>) returns (ok: bool)
      modifies this`fs
      ensures ok <==> SidecarsReadable(old(fs))
      ensures ok ==> fs == PuuidSweepSpec(old(fs), imageIds)
    {
      var swept := PuuidSweep(fs, imageIds);
      if swept.None? {
        return false;
      }
      fs := swept.value;
      return true;
    }
    /** __update_xml_item_puuid: the Parent of every disk Item is remapped, then
        the descriptor is written; a disk Item without a Parent fails the pass. */
    method UpdateXmlItemPuuid(ovf: string, imageIds: map<string, string>) returns (ok: bool)
      modifies this`fs, this`tree
      ensures ok <==> !DiskWithoutParent(old(tree).content)
      ensures ok ==> tree == old(tree).(content := ParentContentSpec(old(tree).content, imageIds))
      ensures ok ==> fs == Write(old(fs), ovf, Doc(tree))
    {
      var content := Passes.RemapParents(tree.content, imageIds);
      if content.None? {
        return false;
      }
      tree := tree.(content := content.value);
      WriteOvfFile(ovf);
      return true;
    }

    /** __update_xml_disk_parentref: every non-empty parentRef of a DiskSection
        becomes the chain root, then the descriptor is written. Without a chain
        root the first such parentRef fails the pass. */
    method UpdateXmlDiskParentRef(ovf: string, root: Option<string>) returns (ok: bool)
      modifies this`fs, this`tree
      ensures ok <==> !(root.None? && AnyParentRef(old(tree).sections))
      ensures ok ==> tree == if root.Some? then old(tree).(sections := SweepSectionsSpec(old(tree).sections, root.value))
                             else old(tree)
      ensures ok ==> fs == Write(old(fs), ovf, Doc(tree))
    {
      var secs := Passes.SweepParentRefs(tree.sections, root);
      if secs.None? {
        return false;
      }
      tree := tree.(sections := secs.value);
      WriteOvfFile(ovf);
      return true;
    }

    /** remove_nics: drop every NIC Item of the hardware sections and write the
        descriptor when one was dropped. */
    method RemoveNics(ovf: string) returns (ok: bool)
      modifies this`fs, this`tree
      ensures ok <==> NicSpec(old(State()), ovf).Some?
      ensures ok ==> State() == NicSpec(old(State()), ovf).value
    {
      var content, removed := Passes.RemoveNicItems(tree.content);
      if content.None? {
        return false;
      }
      tree := tree.(content := content.value);
      if removed {
        WriteOvfFile(ovf);
      }
      return true;
    }

    /** update_ovf_name: the single Content/Name takes the new name and the
        descriptor is written. */
    method UpdateOvfName(ovf: string, name: string) returns (ok: bool)
      modifies this`fs, this`tree
      ensures ok <==> NameSpec(old(State()), ovf, name).Some?
      ensures ok ==> State() == NameSpec(old(State()), ovf, name).value
    {
      if |tree.names| != 1 {
        return false;
      }
      tree := tree.(names := [name]);
      WriteOvfFile(ovf);
      return true;
    }

    /** update_ovf_id: draw a uuid, stamp the TemplateId and the first
        OperatingSystemSection with an id, then rename the descriptor and its
        directory after the uuid. */
    method UpdateOvfId(ovf: string) returns (ok: bool)
      modifies this`fs, this`tree, this`used
      ensures ok <==> OvfIdSpec(gen, old(State()), ovf).Some?
      ensures ok ==> State() == OvfIdSpec(gen, old(State()), ovf).value
    {
      var w := OvfIdPass(gen, State(), ovf);
      if w.None? {
        return false;
      }
      fs, tree, used := w.value.fs, w.value.tree, w.value.used;
      return true;
    }

    /** update_ovf_xml: find and parse the descriptor, then run the configured
        editors in order, stopping at the first that fails. */
    method UpdateOvfXml(macAddress: bool, newName: string, instanceId: bool, renameOvf: bool) returns (ok: bool)
      modifies this
      ensures ok <==> XmlSpec(gen, old(State()), macAddress, newName, instanceId, renameOvf).Some?
      ensures ok ==> State() == XmlSpec(gen, old(State()), macAddress, newName, instanceId, renameOvf).value
    {
      var found := FindFile(fs, Suffixed(".ovf"));
      if found.None? {
        return false;
      }
      var ovf := found.value;
      var d := Lookup(fs, ovf);
      if !(d.Some? && d.value.Doc?) {
        return false;
      }
      tree := d.value.tree;
      XmlSpecFound(gen, old(State()), ovf, tree, macAddress, newName, instanceId, renameOvf);
      ok := RunEditors(ovf, macAddress, newName, instanceId, renameOvf);
    }

    /** The editors of update_ovf_xml in its order, each only when configured. */
    method RunEditors(ovf: string, macAddress: bool, newName: string, instanceId: bool, renameOvf: bool)
        returns (ok: bool)
      modifies this
      ensures ok <==> XmlEdits(gen, old(State()), ovf, macAddress, newName, instanceId, renameOvf).Some?
      ensures ok ==> State() == XmlEdits(gen, old(State()), ovf, macAddress, newName, instanceId, renameOvf).value
    {
      if macAddress {
        ok := RemoveNics(ovf);
        if !ok {
          return;
        }
      }
      if newName != [] {
        ok := UpdateOvfName(ovf, newName);
        if !ok {
          return;
        }
      }
      ok := RunIdEditors(ovf, instanceId, renameOvf);
    }

    /** The editors of update_ovf_xml that change ids, each only when configured. */
    method RunIdEditors(ovf: string, instanceId: bool, renameOvf: bool) returns (ok: bool)
      modifies this
      ensures ok <==> IdEdits(gen, old(State()), ovf, instanceId, renameOvf).Some?
      ensures ok ==> State() == IdEdits(gen, old(State()), ovf, instanceId, renameOvf).value
    {
      if instanceId {
        ok := UpdateDiskId(ovf);
        if !ok {
          return;
        }
      }
      if renameOvf {
        ok := UpdateOvfId(ovf);
        return;
      }
      return true;
    }

    /** __update_disk_id: every disk Item of every hardware section is given new
        ids and its files are moved, then the sidecars' PUUIDs, the Items'
        Parents and the DiskSections' parentRefs are updated. */
    method UpdateDiskId(ovf: string) returns (ok: bool)
      modifies this
      ensures ok <==> DiskIdSpec(gen, old(State()), ovf).Some?
      ensures ok ==> State() == DiskIdSpec(gen, old(State()), ovf).value
    {
      DiskStepsAgree(gen, ovf);
      var r := DiskPass(DiskSteps(gen, ovf), gen, State(), ovf);
      if r.None? {
        return false;
      }
      fs, tree, used, nid := r.value.w.fs, r.value.w.tree, r.value.w.used, r.value.w.nid;
      ok := Sweep(ovf, r.value.imageIds);
    }

    /** The three passes that end __update_disk_id. */
    method Sweep(ovf: string, imageIds: map<string, string>) returns (ok: bool)
      modifies this
      ensures ok <==> Sweeps(old(State()), imageIds, ovf).Some?
      ensures ok ==> State() == Sweeps(old(State()), imageIds, ovf).value
    {
      ok := UpdateMetaFilePuuid(imageIds);
      if !ok {
        return;
      }
      ok := UpdateXmlItemPuuid(ovf, imageIds);
      if !ok {
        return;
      }
      if nid.None? {
        return false;
      }
      ok := UpdateXmlDiskParentRef(ovf, nid.value.parentCombined);
    }
  }

  /** One sidecar of __update_meta_file_puuid: read it, and when its single
      PUUID= line names an old image id, write it back naming the new one. */
  method SweepSidecar(e: Entry, imageIds: map<string, string>) returns (r: Option<Entry>)
    ensures r.None? <==> IsSidecar(e) && !e.data.Text?
    ensures r.Some? ==> r.value == PuuidEntry(e, imageIds)
  {
    if !Matches(Basename(e.path), Suffixed(".meta")) {
      return Some(e);
    }
    if !e.data.Text? {
      return None;
    }
    var text := e.data.text;
    var found := FindAll(text, ParentKey);
    if |found| == 1 && found[0] in imageIds {
      return Some(Entry(e.path, Text(Sub(text, ParentKey, imageIds[found[0]]))));
    }
    return Some(e);
  }

  /** The file loop of __update_meta_file_puuid over the archive in walk order. */
  method PuuidSweep(fs: Archive, imageIds: map<string, string>) returns (r: Option<Archive>)
    ensures r.None? <==> !SidecarsReadable(fs)
    ensures r.Some? ==> r.value == PuuidSweepSpec(fs, imageIds)
  {
    var out := fs;
    var i := 0;
    while i < |fs|
      invariant 0 <= i <= |fs| && |out| == |fs|
      invariant forall k :: 0 <= k < i ==> out[k] == PuuidEntry(fs[k], imageIds)
      invariant forall k :: i <= k < |fs| ==> out[k] == fs[k]
      invariant forall k :: 0 <= k < i && IsSidecar(fs[k]) ==> fs[k].data.Text?
    {
      var e := SweepSidecar(fs[i], imageIds);
      if e.None? {
        return None;
      }
      out := out[i := e.value];
      i := i + 1;
    }
    assert out == PuuidSweepSpec(fs, imageIds);
    return Some(out);
  }

  /** The file work of update_meta_file on the archive fs. */
  method MetaFileUpdate(fs: Archive, oldImage: string, newImage: string, group: string) returns (r: Option<Archive>)
    ensures r == MetaUpdate(fs, oldImage, newImage, group)
  {
    var mp := FindFile(fs, Named(oldImage + ".meta"));
    if mp.None? {
      return None;
    }
    var d := Lookup(fs, mp.value);
    if !(d.Some? && d.value.Text?) {
      return None;
    }
    var written := Write(fs, mp.value, Text(Sub(d.value.text, ImageKey, group)));
    r := RenameFile(written, mp.value, Join(Dirname(mp.value), newImage + ".meta"));
  }

  /** __rewrite_ovf: write the descriptor tree, then rename the disk's image
      file to its new id, update its sidecar and rename its directory to the
      new group. */
  method RewriteOvf(fs: Archive, ovf: string, tree: Descriptor, oldImage: string, ids: DiskIds)
      returns (r: Option<Archive>)
    ensures r == RewriteImage(Write(fs, ovf, Doc(tree)), oldImage, ids)
  {
    var fs1 := Write(fs, ovf, Doc(tree));
    var img := FindFile(fs1, Named(oldImage));
    if img.None? {
      return None;
    }
    var dir := Dirname(img.value);
    var renamed := RenameFile(fs1, img.value, Join(dir, ids.newImage));
    if renamed.None? {
      return None;
    }
    var updated := MetaFileUpdate(renamed.value, oldImage, ids.newImage, ids.newGroup);
    if updated.None? || dir == [] {
      return None;
    }
    r := RenameDir(updated.value, dir, Join(Dirname(dir), Dirname(ids.combined)));
  }

  /** The body of the Item loop of __update_disk_id on the run r: a disk, as
      __chek_if_disk decides, goes through __remap_id with the two uuids it
      draws and then __rewrite_ovf; any other Item is skipped. */
  method ItemPass(st: Step, gen: nat -> string, r: Run, ovf: string, k: nat, j: nat) returns (res: Option<Run>)
    requires IsDiskStep(st, gen, ovf)
    requires k < |r.w.tree.content| && j < |r.w.tree.content[k].items|
    ensures res == st(r, (k, j))
    ensures res.Some? ==> SameShape(r.w.tree, res.value.w.tree)
  {
    var item := r.w.tree.content[k].items[j];
    var hostResource, instanceId, resourceType := Passes.CheckIfDisk(item);
    if !(hostResource && instanceId && resourceType) {
      assert ItemStep(gen, r, ovf, (k, j)) == Some(r);
      return Some(r);
    }
    var a, b := gen(r.w.used), gen(Next(r.w.used));
    var m := Passes.RemapDisk(r.w.tree, k, j, a, b, r.groupIds, r.imageIds);
    assert ItemStep(gen, r, ovf, (k, j)) == AfterRemap(r, ovf, OldGroup(item), a, b, m);
    if m.None? {
      return None;
    }
    var fs1 := RewriteOvf(r.w.fs, ovf, m.value.tree, m.value.oldImage, m.value.ids);
    if fs1.None? {
      return None;
    }
    ItemStepShape(gen, r, ovf, (k, j));
    return Some(Recorded(r, OldGroup(item), a, b, m.value, fs1.value));
  }

  /** The Item loop of __update_disk_id over hardware section k, from the
      run r0 over the sections before it. */
  method SectionPass(st: Step, gen: nat -> string, ovf: string, k: nat, r0: Run) returns (res: Option<Run>)
    requires IsDiskStep(st, gen, ovf) && k < |r0.w.tree.content|
    ensures res == SectionLoop(st, r0, k, |r0.w.tree.content[k].items|)
    ensures res.Some? ==> SameShape(r0.w.tree, res.value.w.tree)
  {
    var n := |r0.w.tree.content[k].items|;
    var r := r0;
    var j := 0;
    while j < n
      invariant j <= n && SameShape(r0.w.tree, r.w.tree)
      invariant SectionLoop(st, r0, k, j) == Some(r)
    {
      var next := ItemPass(st, gen, r, ovf, k, j);
      if next.None? {
        SectionLoopFailure(st, r0, k, j + 1, n);
        return None;
      }
      r := next.value;
      j := j + 1;
    }
    return Some(r);
  }

  /** The loop of __update_disk_id over the sections of w0's descriptor. */
  method DiskPass(st: Step, gen: nat -> string, w0: World, ovf: string) returns (res: Option<Run>)
    requires IsDiskStep(st, gen, ovf)
    ensures res == Loop(st, Start(w0), ItemPositions(w0.tree.content))
  {
    var secs := w0.tree.content;
    var r := Start(w0);
    assert secs[..0] == [];
    var k := 0;
    while k < |secs|
      invariant k <= |secs| && SameShape(w0.tree, r.w.tree)
      invariant Loop(st, Start(w0), ItemPositions(secs[..k])) == Some(r)
    {
      ItemPositionsStep(secs, k);
      if IsHardwareSection(secs[k]) {
        var next := SectionPass(st, gen, ovf, k, r);
        LoopSection(st, Start(w0), ItemPositions(secs[..k]), k, |secs[k].items|);
        if next.None? {
          ItemPositionsPrefix(secs, k + 1);
          LoopFailure(st, Start(w0), ItemPositions(secs[..k + 1]), ItemPositions(secs));
          return None;
        }
        r := next.value;
      } else {
        assert ItemPositions(secs[..k]) + [] == ItemPositions(secs[..k]);
      }
      k := k + 1;
    }
    assert secs[..k] == secs;
    return Some(r);
  }

  /** The renames that end update_ovf_id: the descriptor to `<u>.ovf` beside
      it, then its directory to u; a descriptor at the archive root fails. */
  method MoveOvf(fs: Archive, ovf: string, u: string) returns (r: Option<Archive>)
    ensures r == RenameOvf(fs, ovf, u)
  {
    var dir := Dirname(ovf);
    var renamed := RenameFile(fs, ovf, Join(dir, u + ".ovf"));
    if renamed.None? || dir == [] {
      return None;
    }
    r := RenameDir(renamed.value, dir, Join(Dirname(dir), u));
  }

  /** update_ovf_id on the state w, drawing its uuid from gen. */
  method OvfIdPass(gen: nat -> string, w: World, ovf: string) returns (res: Option<World>)
    ensures res == OvfIdSpec(gen, w, ovf)
  {
    var u := gen(w.used);
    if |w.tree.templateIds| != 1 {
      return None;
    }
    var tree, stamped := StampIds(w.tree, u);
    var fs := if stamped then Write(w.fs, ovf, Doc(tree)) else w.fs;
    var moved := MoveOvf(fs, ovf, u);
    res := if moved.None? then None else Some(World(moved.value, tree, Next(w.used), w.nid));
  }

  /** The edits of update_ovf_id with the uuid u: the TemplateId unless it is
      the blank template, and the first OperatingSystemSection with an id. */
  method StampIds(tree: Descriptor, u: string) returns (t: Descriptor, stamped: bool)
    requires |tree.templateIds| == 1
    ensures t == StampedTree(tree, u)
    ensures stamped <==> FirstStampableFrom(tree.content, 0).Some?
  {
    t := tree;
    if t.templateIds[0] != BlankTemplate {
      t := t.(templateIds := [u]);
    }
    var k := Passes.FirstStampable(t.content);
    stamped := k.Some?;
    if stamped {
      t := Stamp(t, k.value, u);
    }
  }
}
