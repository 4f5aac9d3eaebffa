/** The loops of the uploader that walk the descriptor tree: disk detection,
    the per-disk remap of __remap_id, the final Parent and parentRef sweeps,
    NIC removal and the search for the OperatingSystemSection. Each is a loop
    over the tree's lists, proved equal to a specification of Ovf, and each
    returns the rewritten lists instead of editing the tree in place; the
    uploader stores what they return. */
module Passes {
  import opened Base
  import opened Ovf
  import opened Sync

  /** __chek_if_disk: which of the three disk-describing children the Item has. */
  method CheckIfDisk(item: Item) returns (hostResource: bool, instanceId: bool, resourceType: bool)
    ensures hostResource == HasChild(item, "HostResource")
    ensures instanceId == HasChild(item, "InstanceId")
    ensures resourceType == HasResourceType(item, DiskResourceType)
    ensures (hostResource && instanceId && resourceType) <==> IsDisk(item)
  {
    hostResource, instanceId, resourceType := false, false, false;
    var i := 0;
    while i < |item.children|
      invariant 0 <= i <= |item.children|
      invariant hostResource <==> exists k :: 0 <= k < i && item.children[k].tag == "HostResource"
      invariant instanceId <==> exists k :: 0 <= k < i && item.children[k].tag == "InstanceId"
      invariant resourceType <==> exists k :: 0 <= k < i && item.children[k].tag == "ResourceType" && item.children[k].text == Some(DiskResourceType)
    {
      var c := item.children[i];
      if c.tag == "ResourceType" && c.text == Some(DiskResourceType) {
        resourceType := true;
      } else if c.tag == "HostResource" {
        hostResource := true;
      } else if c.tag == "InstanceId" {
        instanceId := true;
      }
      i := i + 1;
    }
  }

  /** item.find(tag): the first child with the tag. */
  method FindChild(item: Item, tag: string) returns (r: Option<nat>)
    ensures r.None? <==> !HasChild(item, tag)
    ensures r.Some? ==> r.value < |item.children| && item.children[r.value].tag == tag
    ensures r.Some? ==> forall j :: 0 <= j < r.value ==> item.children[j].tag != tag
  {
    var i := 0;
    while i < |item.children|
      invariant 0 <= i <= |item.children|
      invariant forall j :: 0 <= j < i ==> item.children[j].tag != tag
    {
      if item.children[i].tag == tag {
        return Some(i);
      }
      i := i + 1;
    }
    return None;
  }

  /** The References/File loop of __remap_id. */
  method RemapReferences(refs: seq<Elem>, oldImage: string, newImage: string, combined: string) returns (r: seq<Elem>)
    ensures r == RemapReferencesSpec(refs, oldImage, newImage, combined)
  {
    r := [];
    var i := 0;
    while i < |refs|
      invariant 0 <= i <= |refs| && |r| == i
      invariant forall k :: 0 <= k < i ==> r[k] == RemapFile(refs[k], oldImage, newImage, combined)
    {
      var f := refs[i];
      var idAttr := "id" in f.attrs && f.attrs["id"] == oldImage;
      var hrefAttr := "href" in f.attrs;
      if idAttr && hrefAttr {
        f := Elem(f.attrs["id" := newImage]["href" := combined]);
      }
      r := r + [f];
      i := i + 1;
    }
  }

  /** The loop over one DiskSection's entries in __remap_id: the entry of the disk
      gets the new ids, and hit says whether some entry was its chain-root marker. */
  method RemapDiskEntries(es: seq<Elem>, oldImage: string, newImage: string, combined: string) returns (r: seq<Elem>, hit: bool)
    ensures r == RemapEntriesSpec(es, oldImage, newImage, combined)
    ensures hit <==> exists j :: 0 <= j < |es| && IsRootMarker(es[j], oldImage)
  {
    r, hit := [], false;
    var i := 0;
    while i < |es|
      invariant 0 <= i <= |es| && |r| == i
      invariant forall k :: 0 <= k < i ==> r[k] == RemapDiskEntry(es[k], oldImage, newImage, combined)
      invariant hit <==> exists j :: 0 <= j < i && IsRootMarker(es[j], oldImage)
    {
      var e := es[i];
      var diskId := "diskId" in e.attrs && e.attrs["diskId"] == oldImage;
      var fileRef := "fileRef" in e.attrs;
      var parentRef := "parentRef" in e.attrs && !IsBlank(e.attrs["parentRef"]);
      if diskId && fileRef {
        if parentRef && e.attrs["fileRef"] == e.attrs["parentRef"] {
          hit := true;
        }
        e := Elem(e.attrs["diskId" := newImage]["fileRef" := combined]);
      }
      r := r + [e];
      i := i + 1;
    }
  }

  /** The DiskSection loop of __remap_id over the top-level Sections. */
  method RemapDiskSections(secs: seq<Section>, oldImage: string, newImage: string, combined: string)
      returns (r: seq<Section>, marker: bool)
    ensures r == RemapSectionsSpec(secs, oldImage, newImage, combined)
    ensures marker == HasRootMarker(secs, oldImage)
  {
    r, marker := [], false;
    var i := 0;
    while i < |secs|
      invariant 0 <= i <= |secs| && |r| == i
      invariant forall k :: 0 <= k < i ==> r[k] == RemapSectionsSpec(secs, oldImage, newImage, combined)[k]
      invariant marker <==> (exists k, j :: 0 <= k < i && IsDiskSection(secs[k]) && 0 <= j < |secs[k].entries| &&
                               IsRootMarker(secs[k].entries[j], oldImage))
    {
      var sec := secs[i];
      if IsDiskSection(sec) {
        var es, hit := RemapDiskEntries(sec.entries, oldImage, newImage, combined);
        sec := sec.(entries := es);
        marker := marker || hit;
      }
      r := r + [sec];
      i := i + 1;
    }
  }
  // ---- __remap_id ---------------------------------------------------------

  /** What __remap_id leaves behind for one disk: the tree, the old image id,
      the disk's record n_id_d and the two dictionaries. */
  datatype Remapped = Remapped(tree: Descriptor, oldImage: string, ids: DiskIds,
                               groupIds: map<string, string>, imageIds: map<string, string>)

  /** The disk Item after __remap_id: new image id, and `<group>/<image>` as HostResource. */
  function RemappedItem(item: Item, newImage: string, combined: string): Item {
    SetChildText(SetChildText(item, "InstanceId", newImage), "HostResource", combined)
  }

  /** The group id a disk gets: the one stored for its old group, else the proposal,
      which is then stored (first seen wins). */
  function ChosenGroup(groupIds: map<string, string>, oldGroup: string, proposal: string): string {
    if oldGroup in groupIds then groupIds[oldGroup] else proposal
  }

  /** The tree after __remap_id gave the disk of Item i of Content/Section s,
      whose old image id is o, the ids newImage and combined. */
  function RemapTree(tree: Descriptor, s: nat, i: nat, o: string, newImage: string, combined: string): Descriptor
    requires s < |tree.content| && i < |tree.content[s].items|
  {
    var t := tree.(references := RemapReferencesSpec(tree.references, o, newImage, combined),
                   sections := RemapSectionsSpec(tree.sections, o, newImage, combined));
    WithItem(t, s, i, RemappedItem(tree.content[s].items[i], newImage, combined))
  }

  /** __remap_id on Item i of Content/Section s, given the two fresh ids it draws:
      newImage first, then the proposed group id. It fails when InstanceId or
      HostResource is empty. */
  function RemapSpec(tree: Descriptor, s: nat, i: nat, newImage: string, proposal: string,
                     groupIds: map<string, string>, imageIds: map<string, string>): Option<Remapped>
    requires s < |tree.content| && i < |tree.content[s].items| && IsDisk(tree.content[s].items[i])
  {
    var item := tree.content[s].items[i];
    var oldText, hostText := ChildText(item, "InstanceId").value, ChildText(item, "HostResource").value;
    if oldText.None? || hostText.None? then None
    else
      var o, g := oldText.value, Dirname(hostText.value);
      var group := ChosenGroup(groupIds, g, proposal);
      var combined := group + "/" + newImage;
      Some(Remapped(RemapTree(tree, s, i, o, newImage, combined), o,
                    DiskIds(newImage, group, combined, if HasRootMarker(tree.sections, o) then Some(combined) else None),
                    if g in groupIds then groupIds else groupIds[g := proposal],
                    imageIds[o := newImage]))
  }

  /** __remap_id keeps the number of sections and of Items in each. */
  lemma RemapSpecShape(tree: Descriptor, s: nat, i: nat, newImage: string, proposal: string,
                       groupIds: map<string, string>, imageIds: map<string, string>)
    requires s < |tree.content| && i < |tree.content[s].items| && IsDisk(tree.content[s].items[i])
    requires RemapSpec(tree, s, i, newImage, proposal, groupIds, imageIds).Some?
    ensures SameShape(tree, RemapSpec(tree, s, i, newImage, proposal, groupIds, imageIds).value.tree)
  {
    RemapSpecEffect(tree, s, i, newImage, proposal, groupIds, imageIds);
  }

  /** What __remap_id does to one disk: it fails when InstanceId or HostResource
      is empty; otherwise InstanceId becomes the new image id and HostResource
      `<group>/<image>`, where the group is the one already stored for the
      disk's old group (which stays) or else the proposal (which is stored), and
      the old image id is mapped to the new one, replacing any earlier value. */
  lemma RemapSpecEffect(tree: Descriptor, s: nat, i: nat, newImage: string, proposal: string,
                        groupIds: map<string, string>, imageIds: map<string, string>)
    requires s < |tree.content| && i < |tree.content[s].items| && IsDisk(tree.content[s].items[i])
    ensures var item := tree.content[s].items[i];
      var res := RemapSpec(tree, s, i, newImage, proposal, groupIds, imageIds);
      res.None? <==> ChildText(item, "InstanceId") == Some(None) || ChildText(item, "HostResource") == Some(None)
    ensures var res := RemapSpec(tree, s, i, newImage, proposal, groupIds, imageIds);
      res.Some? ==>
      var item := tree.content[s].items[i];
      var o := ChildText(item, "InstanceId").value.value;
      var g := Dirname(ChildText(item, "HostResource").value.value);
      var group := ChosenGroup(groupIds, g, proposal);
      var r := res.value;
      r.oldImage == o && r.ids.newImage == newImage && r.ids.newGroup == group &&
      r.ids.combined == group + "/" + newImage &&
      (g in groupIds ==> r.groupIds == groupIds) &&
      (g !in groupIds ==> r.groupIds == groupIds[g := proposal]) &&
      r.imageIds == imageIds[o := newImage] &&
      SameShape(tree, r.tree) &&
      ChildText(r.tree.content[s].items[i], "InstanceId") == Some(Some(newImage)) &&
      ChildText(r.tree.content[s].items[i], "HostResource") == Some(Some(group + "/" + newImage)) &&
      r.tree.names == tree.names && r.tree.templateIds == tree.templateIds
  {
    var item := tree.content[s].items[i];
    var res := RemapSpec(tree, s, i, newImage, proposal, groupIds, imageIds);
    if res.Some? {
      var o := ChildText(item, "InstanceId").value.value;
      var g := Dirname(ChildText(item, "HostResource").value.value);
      var combined := ChosenGroup(groupIds, g, proposal) + "/" + newImage;
      var t := tree.(references := RemapReferencesSpec(tree.references, o, newImage, combined),
                     sections := RemapSectionsSpec(tree.sections, o, newImage, combined));
      assert res.value.tree == WithItem(t, s, i, RemappedItem(item, newImage, combined));
      var once := SetChildText(item, "InstanceId", newImage);
      assert ChildText(once, "InstanceId") == Some(Some(newImage));
      WithItemShape(t, s, i, RemappedItem(item, newImage, combined));
    }
  }

  /** The rest of __remap_id's edit of the tree: the References and DiskSections
      are remapped from the old image id to the new ids, the chain root is the
      new combined id exactly when this disk's DiskSection entry is the root
      marker, and every other Item, and every Content/Section's own attributes
      and entries, are as they were. */
  lemma RemapSpecTree(tree: Descriptor, s: nat, i: nat, newImage: string, proposal: string,
                      groupIds: map<string, string>, imageIds: map<string, string>)
    requires s < |tree.content| && i < |tree.content[s].items| && IsDisk(tree.content[s].items[i])
    ensures var res := RemapSpec(tree, s, i, newImage, proposal, groupIds, imageIds);
      res.Some? ==>
      var r := res.value;
      var o := r.oldImage;
      var combined := r.ids.combined;
      r.tree.references == RemapReferencesSpec(tree.references, o, newImage, combined) &&
      r.tree.sections == RemapSectionsSpec(tree.sections, o, newImage, combined) &&
      r.ids.parentCombined == (if HasRootMarker(tree.sections, o) then Some(combined) else None) &&
      |r.tree.content| == |tree.content| &&
      (forall k :: 0 <= k < |tree.content| ==>
        r.tree.content[k].attrs == tree.content[k].attrs && r.tree.content[k].entries == tree.content[k].entries &&
        |r.tree.content[k].items| == |tree.content[k].items|) &&
      forall k, j :: 0 <= k < |tree.content| && 0 <= j < |tree.content[k].items| && (k, j) != (s, i) ==>
        r.tree.content[k].items[j] == tree.content[k].items[j]
  {
    var item := tree.content[s].items[i];
    var res := RemapSpec(tree, s, i, newImage, proposal, groupIds, imageIds);
    if res.Some? {
      var o := ChildText(item, "InstanceId").value.value;
      var g := Dirname(ChildText(item, "HostResource").value.value);
      var combined := ChosenGroup(groupIds, g, proposal) + "/" + newImage;
      var t := tree.(references := RemapReferencesSpec(tree.references, o, newImage, combined),
                     sections := RemapSectionsSpec(tree.sections, o, newImage, combined));
      assert res.value.tree == WithItem(t, s, i, RemappedItem(item, newImage, combined));
      assert res.value.oldImage == o && res.value.ids.combined == combined;
      WithItemFrame(t, s, i, RemappedItem(item, newImage, combined));
    }
  }

  /** The two texts __remap_id reads: InstanceId, and HostResource after
      InstanceId was set (which leaves HostResource as it was). */
  method ReadDiskIds(item: Item, newImage: string) returns (oldText: Option<string>, hostText: Option<string>)
    requires IsDisk(item)
    ensures oldText == ChildText(item, "InstanceId").value
    ensures hostText == ChildText(item, "HostResource").value
  {
    var ii := FindChild(item, "InstanceId");
    assert FirstChild(item, "InstanceId") == ii;
    oldText := item.children[ii.value].text;
    var updated := SetChildText(item, "InstanceId", newImage);
    SameTagsSameChildren(item, updated, "HostResource");
    var hi := FindChild(updated, "HostResource");
    assert FirstChild(updated, "HostResource") == hi;
    hostText := updated.children[hi.value].text;
  }

  /** The tree edits of __remap_id once the ids are known. */
  method RemapTreeLoops(tree: Descriptor, s: nat, i: nat, o: string, newImage: string, combined: string)
      returns (t: Descriptor, marker: bool)
    requires s < |tree.content| && i < |tree.content[s].items|
    ensures t == RemapTree(tree, s, i, o, newImage, combined)
    ensures marker == HasRootMarker(tree.sections, o)
  {
    var updated := SetChildText(tree.content[s].items[i], "InstanceId", newImage);
    updated := SetChildText(updated, "HostResource", combined);
    var refs := RemapReferences(tree.references, o, newImage, combined);
    var secs;
    secs, marker := RemapDiskSections(tree.sections, o, newImage, combined);
    t := WithItem(tree.(references := refs, sections := secs), s, i, updated);
  }

  /** __remap_id: the loops over the Item's children, the References and the
      DiskSections, computing RemapSpec. */
  method RemapDisk(tree: Descriptor, s: nat, i: nat, newImage: string, proposal: string,
                   groupIds: map<string, string>, imageIds: map<string, string>) returns (res: Option<Remapped>)
    requires s < |tree.content| && i < |tree.content[s].items| && IsDisk(tree.content[s].items[i])
    ensures res == RemapSpec(tree, s, i, newImage, proposal, groupIds, imageIds)
  {
    var oldText, hostText := ReadDiskIds(tree.content[s].items[i], newImage);
    if oldText.None? || hostText.None? {
      return None;
    }
    var o := oldText.value;
    var g := Dirname(hostText.value);
    var group := proposal;
    var groups := groupIds;
    if g in groupIds {
      group := groupIds[g];
    } else {
      groups := groupIds[g := proposal];
    }
    var combined := group + "/" + newImage;
    var t, marker := RemapTreeLoops(tree, s, i, o, newImage, combined);
    var ids := DiskIds(newImage, group, combined, if marker then Some(combined) else None);
    return Some(Remapped(t, o, ids, groups, imageIds[o := newImage]));
  }

  // ---- The final sweeps ------------------------------------------------

  /** The loop over one DiskSection's entries in __update_xml_disk_parentref.
      Without a chain root, the first non-empty parentRef makes lxml refuse the
      None value and the pass fails. */
  method SweepEntries(es: seq<Elem>, root: Option<string>) returns (r: Option<seq<Elem>>)
    ensures root.Some? ==> r == Some(SweepEntriesSpec(es, root.value))
    ensures root.None? ==> r == if exists j :: 0 <= j < |es| && HasParentRef(es[j]) then None else Some(es)
  {
    var out := [];
    var i := 0;
    while i < |es|
      invariant 0 <= i <= |es| && |out| == i
      invariant root.Some? ==> forall k :: 0 <= k < i ==> out[k] == SetParentRef(es[k], root.value)
      invariant root.None? ==> out == es[..i] && forall k :: 0 <= k < i ==> !HasParentRef(es[k])
    {
      var e := es[i];
      if "parentRef" in e.attrs && !IsBlank(e.attrs["parentRef"]) {
        if root.None? {
          return None;
        }
        e := Elem(e.attrs["parentRef" := root.value]);
      }
      out := out + [e];
      i := i + 1;
    }
    assert root.None? ==> out == es;
    assert root.Some? ==> out == SweepEntriesSpec(es, root.value);
    return Some(out);
  }

  /** __update_xml_disk_parentref before the write: every non-empty parentRef of
      every DiskSection becomes the chain root. */
  method SweepParentRefs(secs: seq<Section>, root: Option<string>) returns (r: Option<seq<Section>>)
    ensures root.Some? ==> r == Some(SweepSectionsSpec(secs, root.value))
    ensures root.None? ==> r == if AnyParentRef(secs) then None else Some(secs)
  {
    var out := [];
    var i := 0;
    while i < |secs|
      invariant 0 <= i <= |secs| && |out| == i
      invariant root.Some? ==> forall k :: 0 <= k < i ==> out[k] == SweepSectionsSpec(secs, root.value)[k]
      invariant root.None? ==> out == secs[..i]
      invariant root.None? ==> !exists k, j :: 0 <= k < i && IsDiskSection(secs[k]) && 0 <= j < |secs[k].entries| &&
                                                HasParentRef(secs[k].entries[j])
    {
      var sec := secs[i];
      if IsDiskSection(sec) {
        var es := SweepEntries(sec.entries, root);
        if es.None? {
          return None;
        }
        sec := sec.(entries := es.value);
      }
      out := out + [sec];
      i := i + 1;
    }
    assert root.None? ==> out == secs;
    assert root.Some? ==> out == SweepSectionsSpec(secs, root.value);
    return Some(out);
  }

  /** The body of the Item loop in __update_xml_item_puuid. A disk Item without
      a Parent child makes item.find(None) raise, and the pass fails. */
  method RemapItemParent(item: Item, imageIds: map<string, string>) returns (r: Option<Item>)
    ensures r.None? <==> IsDisk(item) && !HasChild(item, "Parent")
    ensures r.Some? ==> r.value == if IsDisk(item) then RemapParent(item, imageIds) else item
  {
    var hostResource, instanceId, resourceType := CheckIfDisk(item);
    if !(instanceId && hostResource && resourceType) {
      return Some(item);
    }
    var p := FindChild(item, "Parent");
    if p.None? {
      return None;
    }
    assert FirstChild(item, "Parent") == p;
    var text := item.children[p.value].text;
    if text.Some? && text.value in imageIds {
      return Some(SetChildText(item, "Parent", imageIds[text.value]));
    }
    return Some(item);
  }

  /** The Item loop of __update_xml_item_puuid over one hardware section: the
      Parent of every disk Item is remapped. */
  method RemapItemParents(items: seq<Item>, imageIds: map<string, string>) returns (r: Option<seq<Item>>)
    ensures r.None? <==> exists j :: 0 <= j < |items| && IsDisk(items[j]) && !HasChild(items[j], "Parent")
    ensures r.Some? ==> r.value == ParentItemsSpec(items, imageIds)
  {
    var out := [];
    var j := 0;
    while j < |items|
      invariant 0 <= j <= |items| && |out| == j
      invariant forall m :: 0 <= m < j ==> out[m] == ParentItemsSpec(items, imageIds)[m]
      invariant forall m :: 0 <= m < j ==> !(IsDisk(items[m]) && !HasChild(items[m], "Parent"))
    {
      var item := RemapItemParent(items[j], imageIds);
      if item.None? {
        return None;
      }
      out := out + [item.value];
      j := j + 1;
    }
    return Some(out);
  }

  /** __update_xml_item_puuid before the write: the Parent of every disk Item of
      every hardware section is remapped. */
  method RemapParents(content: seq<Section>, imageIds: map<string, string>) returns (r: Option<seq<Section>>)
    ensures r.None? <==> DiskWithoutParent(content)
    ensures r.Some? ==> r.value == ParentContentSpec(content, imageIds)
  {
    var out := [];
    var i := 0;
    while i < |content|
      invariant 0 <= i <= |content| && |out| == i
      invariant forall k :: 0 <= k < i ==> out[k] == ParentContentSpec(content, imageIds)[k]
      invariant !exists k, j :: 0 <= k < i && IsHardwareSection(content[k]) && 0 <= j < |content[k].items| &&
                                 IsDisk(content[k].items[j]) && !HasChild(content[k].items[j], "Parent")
    {
      var sec := content[i];
      if IsHardwareSection(sec) {
        var items := RemapItemParents(sec.items, imageIds);
        if items.None? {
          return None;
        }
        sec := sec.(items := items.value);
      }
      out := out + [sec];
      i := i + 1;
    }
    return Some(out);
  }

  // ---- remove_nics --------------------------------------------------------

  /** The child loop of remove_nics on one Item: whether the Item is removed, and
      whether a second NIC child makes the removal fail. */
  method ScanNic(item: Item) returns (nic: bool, repeated: bool)
    ensures repeated <==> RepeatedNic(item)
    ensures !repeated ==> (nic <==> IsNic(item))
  {
    nic := false;
    var first := 0;
    var i := 0;
    while i < |item.children|
      invariant 0 <= i <= |item.children|
      invariant nic <==> exists k :: 0 <= k < i && IsNicChild(item.children[k])
      invariant nic ==> first < i && IsNicChild(item.children[first])
      invariant !exists j, k :: 0 <= j < k < i && IsNicChild(item.children[j]) && IsNicChild(item.children[k])
    {
      if item.children[i].tag == "ResourceType" && item.children[i].text == Some(NicResourceType) {
        if nic {
          return true, true;
        }
        nic, first := true, i;
      }
      i := i + 1;
    }
    repeated := false;
  }

  /** The Item loop of remove_nics over one hardware section: the Items it
      keeps, and whether it removed any. */
  method KeepItems(items: seq<Item>) returns (r: Option<seq<Item>>, found: bool)
    ensures r.None? <==> exists j :: 0 <= j < |items| && RepeatedNic(items[j])
    ensures r.Some? ==> r.value == KeepNonNics(items) && (found <==> exists j :: 0 <= j < |items| && IsNic(items[j]))
  {
    var kept := [];
    found := false;
    var j := 0;
    while j < |items|
      invariant 0 <= j <= |items|
      invariant kept == KeepNonNics(items[..j])
      invariant forall m :: 0 <= m < j ==> !RepeatedNic(items[m])
      invariant found <==> exists m :: 0 <= m < j && IsNic(items[m])
    {
      var nic, repeated := ScanNic(items[j]);
      if repeated {
        return None, found;
      }
      assert items[..j + 1][..j] == items[..j];
      if nic {
        found := true;
      } else {
        kept := kept + [items[j]];
      }
      j := j + 1;
    }
    assert items[..j] == items;
    return Some(kept), found;
  }

  /** remove_nics before the write: every NIC Item leaves its hardware section;
      removed says whether anything was removed, which decides the write. */
  method RemoveNicItems(content: seq<Section>) returns (r: Option<seq<Section>>, removed: bool)
    ensures r.None? <==> AnyRepeatedNic(content)
    ensures r.Some? ==> r.value == NicContentSpec(content) && (removed <==> AnyNic(content))
  {
    var out := [];
    removed := false;
    var i := 0;
    while i < |content|
      invariant 0 <= i <= |content| && |out| == i
      invariant forall k :: 0 <= k < i ==> out[k] == NicContentSpec(content)[k]
      invariant !exists k, j :: 0 <= k < i && IsHardwareSection(content[k]) && 0 <= j < |content[k].items| &&
                                 RepeatedNic(content[k].items[j])
      invariant removed <==> exists k, j :: 0 <= k < i && IsHardwareSection(content[k]) && 0 <= j < |content[k].items| &&
                                            IsNic(content[k].items[j])
    {
      var sec := content[i];
      if IsHardwareSection(sec) {
        var kept, found := KeepItems(sec.items);
        if kept.None? {
          return None, removed;
        }
        sec := sec.(items := kept.value);
        removed := removed || found;
      }
      out := out + [sec];
      i := i + 1;
    }
    return Some(out), removed;
  }

  // ---- update_ovf_id ------------------------------------------------------

  /** The Content/Section loop of update_ovf_id: the first OperatingSystemSection
      that has an id attribute. */
  method FirstStampable(content: seq<Section>) returns (r: Option<nat>)
    ensures r == FirstStampableFrom(content, 0)
  {
    var i := 0;
    while i < |content|
      invariant 0 <= i <= |content|
      invariant forall k :: 0 <= k < i ==> !IsStampable(content[k])
    {
      var idAttr := "id" in content[i].attrs;
      var osAttr := EndsWith(content[i].kind, OsSectionType);
      if idAttr && osAttr {
        assert FirstStampableFrom(content, 0) == Some(i);
        return Some(i);
      }
      i := i + 1;
    }
    return None;
  }
}

