/** The parsed OVF descriptor as the remapping engine sees it, and the
    per-element rewrites it performs. Element tags and attribute names are
    their local names (`InstanceId`, `href`, `diskId`, ...); a section's
    `xsi:type` value is kept whole and tested by suffix, as the uploader does. */
module Ovf {
  import opened Base

  const DiskResourceType := "17"
  const NicResourceType := "10"
  const HardwareSectionType := "VirtualHardwareSection_Type"
  const DiskSectionType := "DiskSection_Type"
  const OsSectionType := "OperatingSystemSection_Type"
  /** The reserved TemplateId that update_ovf_id leaves in place. */
  const BlankTemplate := "00000000-0000-0000-0000-000000000000"

  /** A child element of a hardware Item (`rasd:InstanceId`, ...); text None is an empty element. */
  datatype Child = Child(tag: string, text: Option<string>)
  datatype Item = Item(children: seq<Child>)
  /** An element read only through its attributes: a References/File or a DiskSection Disk. */
  datatype Elem = Elem(attrs: map<string, string>)
  /** A Section: its `xsi:type`, other attributes, its Item children and its other children. */
  datatype Section = Section(kind: string, attrs: map<string, string>, items: seq<Item>, entries: seq<Elem>)
  /** The document: References/File, the top-level Sections (DiskSection among them),
      the texts of Content/Name and Content/TemplateId, and the Content/Section list. */
  datatype Descriptor = Descriptor(
    references: seq<Elem>,
    sections: seq<Section>,
    names: seq<string>,
    templateIds: seq<string>,
    content: seq<Section>)

  predicate IsHardwareSection(s: Section) { EndsWith(s.kind, HardwareSectionType) }
  predicate IsDiskSection(s: Section) { EndsWith(s.kind, DiskSectionType) }
  predicate IsOsSection(s: Section) { EndsWith(s.kind, OsSectionType) }

  /** Python's str.strip() leaves nothing. */
  predicate IsBlank(s: string) {
    forall k :: 0 <= k < |s| ==> s[k] in {' ', '\t', '\n', '\r', '\U{0B}', '\U{0C}'}
  }

  // ---- Items ----------------------------------------------------------

  predicate HasChild(item: Item, tag: string) {
    exists k :: 0 <= k < |item.children| && item.children[k].tag == tag
  }

  predicate HasResourceType(item: Item, rt: string) {
    exists k :: 0 <= k < |item.children| && item.children[k].tag == "ResourceType" && item.children[k].text == Some(rt)
  }

  /** An Item describes a disk iff it has a ResourceType child with text 17 and
      both a HostResource and an InstanceId child. */
  predicate IsDisk(item: Item) {
    HasResourceType(item, DiskResourceType) && HasChild(item, "HostResource") && HasChild(item, "InstanceId")
  }

  predicate IsNic(item: Item) { HasResourceType(item, NicResourceType) }

  /** item.find(tag): the index of the first child with that tag. */
  function FirstChild(item: Item, tag: string): (r: Option<nat>)
    ensures r.None? <==> !HasChild(item, tag)
    ensures r.Some? ==> r.value < |item.children| && item.children[r.value].tag == tag
    ensures r.Some? ==> forall j :: 0 <= j < r.value ==> item.children[j].tag != tag
  {
    FirstChildFrom(item, tag, 0)
  }

  function FirstChildFrom(item: Item, tag: string, from: nat): (r: Option<nat>)
    requires from <= |item.children|
    ensures r.None? <==> forall k :: from <= k < |item.children| ==> item.children[k].tag != tag
    ensures r.Some? ==> from <= r.value < |item.children| && item.children[r.value].tag == tag
    ensures r.Some? ==> forall j :: from <= j < r.value ==> item.children[j].tag != tag
    decreases |item.children| - from
  {
    if from == |item.children| then None
    else if item.children[from].tag == tag then Some(from)
    else FirstChildFrom(item, tag, from + 1)
  }

  /** The text of the first child with the tag, if there is such a child. */
  function ChildText(item: Item, tag: string): Option<Option<string>> {
    match FirstChild(item, tag)
    case None => None
    case Some(k) => Some(item.children[k].text)
  }

  /** Sets the text of the first child with the tag; other children are untouched. */
  function SetChildText(item: Item, tag: string, text: string): (r: Item)
    ensures |r.children| == |item.children|
    ensures forall k :: 0 <= k < |item.children| ==> r.children[k].tag == item.children[k].tag
    ensures HasChild(item, tag) ==> ChildText(r, tag) == Some(Some(text))
    ensures forall t :: t != tag ==> ChildText(r, t) == ChildText(item, t)
  {
    match FirstChild(item, tag)
    case None => item
    case Some(k) =>
      var r := Item(item.children[k := Child(tag, Some(text))]);
      assert forall t :: FirstChild(r, t) == FirstChild(item, t) by {
        forall t ensures FirstChild(r, t) == FirstChild(item, t) {
          FirstChildSameTags(item, r, t, 0);
        }
      }
      r
  }

  lemma {:induction false} FirstChildSameTags(a: Item, b: Item, tag: string, from: nat)
    requires |a.children| == |b.children| && from <= |a.children|
    requires forall k :: 0 <= k < |a.children| ==> a.children[k].tag == b.children[k].tag
    ensures FirstChildFrom(a, tag, from) == FirstChildFrom(b, tag, from)
    decreases |a.children| - from
  {
    if from < |a.children| {
      FirstChildSameTags(a, b, tag, from + 1);
    }
  }

  /** Rewriting child texts keeps the children and their tags, so whether an
      Item is a disk, and whether it is a NIC, depend only on texts where they must. */
  lemma SameTagsSameChildren(a: Item, b: Item, tag: string)
    requires |a.children| == |b.children|
    requires forall k :: 0 <= k < |a.children| ==> a.children[k].tag == b.children[k].tag
    ensures HasChild(a, tag) == HasChild(b, tag)
  {
    if HasChild(a, tag) {
      var k :| 0 <= k < |a.children| && a.children[k].tag == tag;
      assert b.children[k].tag == tag;
    }
    if HasChild(b, tag) {
      var k :| 0 <= k < |b.children| && b.children[k].tag == tag;
      assert a.children[k].tag == tag;
    }
  }

  // ---- References/File and DiskSection Disk ----------------------------

  /** This File entry is the one of the disk whose old image id is given. */
  predicate IsFileOf(e: Elem, oldImage: string) {
    "id" in e.attrs && e.attrs["id"] == oldImage && "href" in e.attrs
  }

  /** A File entry after the disk oldImage has been given newImage and combined. */
  function RemapFile(e: Elem, oldImage: string, newImage: string, combined: string): Elem {
    if IsFileOf(e, oldImage) then Elem(e.attrs["id" := newImage]["href" := combined]) else e
  }

  /** This Disk entry is the one of the disk whose old image id is given. */
  predicate IsDiskEntryOf(e: Elem, oldImage: string) {
    "diskId" in e.attrs && e.attrs["diskId"] == oldImage && "fileRef" in e.attrs
  }

  predicate HasParentRef(e: Elem) {
    "parentRef" in e.attrs && !IsBlank(e.attrs["parentRef"])
  }

  /** The self-referential chain-root marker: the disk's entry whose non-empty
      parentRef equals its own (not yet rewritten) fileRef. */
  predicate IsRootMarker(e: Elem, oldImage: string) {
    IsDiskEntryOf(e, oldImage) && HasParentRef(e) && e.attrs["fileRef"] == e.attrs["parentRef"]
  }

  function RemapDiskEntry(e: Elem, oldImage: string, newImage: string, combined: string): Elem {
    if IsDiskEntryOf(e, oldImage) then Elem(e.attrs["diskId" := newImage]["fileRef" := combined]) else e
  }

  /** The final DiskSection pass: a non-empty parentRef becomes the chain root. */
  function SetParentRef(e: Elem, root: string): Elem {
    if HasParentRef(e) then Elem(e.attrs["parentRef" := root]) else e
  }

  /** The final Item pass: a Parent text that is an old image id becomes its new id. */
  function RemapParent(item: Item, imageIds: map<string, string>): Item {
    match ChildText(item, "Parent")
    case Some(Some(p)) => if p in imageIds then SetChildText(item, "Parent", imageIds[p]) else item
    case _ => item
  }

  // ---- Whole-document updates -------------------------------------------

  /** The tree with Item i of Content/Section s replaced. */
  function WithItem(d: Descriptor, s: nat, i: nat, item: Item): Descriptor
    requires s < |d.content| && i < |d.content[s].items|
  {
    var sec := d.content[s];
    d.(content := d.content[s := sec.(items := sec.items[i := item])])
  }

  lemma WithItemShape(d: Descriptor, s: nat, i: nat, item: Item)
    requires s < |d.content| && i < |d.content[s].items|
    ensures SameShape(d, WithItem(d, s, i, item))
    ensures WithItem(d, s, i, item).content[s].items[i] == item
  {
  }

  /** Replacing one Item leaves everything else of the Content as it was. */
  lemma WithItemFrame(d: Descriptor, s: nat, i: nat, item: Item)
    requires s < |d.content| && i < |d.content[s].items|
    ensures var e := WithItem(d, s, i, item);
      e.references == d.references && e.sections == d.sections && |e.content| == |d.content| &&
      (forall k :: 0 <= k < |d.content| ==>
        e.content[k].attrs == d.content[k].attrs && e.content[k].entries == d.content[k].entries &&
        |e.content[k].items| == |d.content[k].items|) &&
      forall k, j :: 0 <= k < |d.content| && 0 <= j < |d.content[k].items| && (k, j) != (s, i) ==>
        e.content[k].items[j] == d.content[k].items[j]
  {
  }

  /** The number of Content/Sections and of Items in each is the same. */
  predicate SameShape(a: Descriptor, b: Descriptor) {
    |a.content| == |b.content| &&
    forall s :: 0 <= s < |a.content| ==>
      b.content[s].kind == a.content[s].kind && |b.content[s].items| == |a.content[s].items|
  }

  /** The References/File list after remapping one disk. */
  function RemapReferencesSpec(refs: seq<Elem>, oldImage: string, newImage: string, combined: string): (r: seq<Elem>)
    ensures |r| == |refs|
  {
    seq(|refs|, k requires 0 <= k < |refs| => RemapFile(refs[k], oldImage, newImage, combined))
  }

  function RemapEntriesSpec(es: seq<Elem>, oldImage: string, newImage: string, combined: string): (r: seq<Elem>)
    ensures |r| == |es|
  {
    seq(|es|, k requires 0 <= k < |es| => RemapDiskEntry(es[k], oldImage, newImage, combined))
  }

  /** The top-level Sections after remapping one disk: only DiskSections change. */
  function RemapSectionsSpec(secs: seq<Section>, oldImage: string, newImage: string, combined: string): (r: seq<Section>)
    ensures |r| == |secs|
  {
    seq(|secs|, k requires 0 <= k < |secs| =>
      if IsDiskSection(secs[k]) then secs[k].(entries := RemapEntriesSpec(secs[k].entries, oldImage, newImage, combined))
      else secs[k])
  }

  /** Some DiskSection holds the chain-root marker of this disk. */
  predicate HasRootMarker(secs: seq<Section>, oldImage: string) {
    exists k, j :: 0 <= k < |secs| && IsDiskSection(secs[k]) && 0 <= j < |secs[k].entries| &&
      IsRootMarker(secs[k].entries[j], oldImage)
  }

  function SweepEntriesSpec(es: seq<Elem>, root: string): (r: seq<Elem>)
    ensures |r| == |es|
  {
    seq(|es|, k requires 0 <= k < |es| => SetParentRef(es[k], root))
  }

  function SweepSectionsSpec(secs: seq<Section>, root: string): (r: seq<Section>)
    ensures |r| == |secs|
  {
    seq(|secs|, k requires 0 <= k < |secs| =>
      if IsDiskSection(secs[k]) then secs[k].(entries := SweepEntriesSpec(secs[k].entries, root)) else secs[k])
  }

  /** Some DiskSection entry carries a non-empty parentRef. */
  predicate AnyParentRef(secs: seq<Section>) {
    exists k, j :: 0 <= k < |secs| && IsDiskSection(secs[k]) && 0 <= j < |secs[k].entries| &&
      HasParentRef(secs[k].entries[j])
  }

  function ParentItemsSpec(items: seq<Item>, imageIds: map<string, string>): (r: seq<Item>)
    ensures |r| == |items|
  {
    seq(|items|, k requires 0 <= k < |items| => if IsDisk(items[k]) then RemapParent(items[k], imageIds) else items[k])
  }

  function ParentContentSpec(secs: seq<Section>, imageIds: map<string, string>): (r: seq<Section>)
    ensures |r| == |secs|
  {
    seq(|secs|, k requires 0 <= k < |secs| =>
      if IsHardwareSection(secs[k]) then secs[k].(items := ParentItemsSpec(secs[k].items, imageIds)) else secs[k])
  }

  /** Some hardware disk Item has no Parent child (the pass then fails). */
  predicate DiskWithoutParent(secs: seq<Section>) {
    exists k, j :: 0 <= k < |secs| && IsHardwareSection(secs[k]) && 0 <= j < |secs[k].items| &&
      IsDisk(secs[k].items[j]) && !HasChild(secs[k].items[j], "Parent")
  }

  /** The Items that remove_nics keeps, in their order. */
  function KeepNonNics(items: seq<Item>): (r: seq<Item>)
    ensures |r| <= |items|
  {
    if items == [] then []
    else KeepNonNics(items[..|items| - 1]) + (if IsNic(items[|items| - 1]) then [] else [items[|items| - 1]])
  }

  predicate IsNicChild(c: Child) {
    c.tag == "ResourceType" && c.text == Some(NicResourceType)
  }

  /** The Item has two NIC ResourceType children: remove_nics then removes it
      once and fails on the second, the Item being detached already. */
  predicate RepeatedNic(item: Item) {
    exists j, k :: 0 <= j < k < |item.children| && IsNicChild(item.children[j]) && IsNicChild(item.children[k])
  }

  predicate AnyRepeatedNic(secs: seq<Section>) {
    exists k, j :: 0 <= k < |secs| && IsHardwareSection(secs[k]) && 0 <= j < |secs[k].items| &&
      RepeatedNic(secs[k].items[j])
  }

  predicate AnyNic(secs: seq<Section>) {
    exists k, j :: 0 <= k < |secs| && IsHardwareSection(secs[k]) && 0 <= j < |secs[k].items| &&
      IsNic(secs[k].items[j])
  }

  /** The Content/Sections after remove_nics: hardware sections keep their non-NIC Items. */
  function NicContentSpec(secs: seq<Section>): (r: seq<Section>)
    ensures |r| == |secs|
  {
    seq(|secs|, k requires 0 <= k < |secs| =>
      if IsHardwareSection(secs[k]) then secs[k].(items := KeepNonNics(secs[k].items)) else secs[k])
  }

  /** The Content/Section that update_ovf_id stamps: an OperatingSystemSection with an id. */
  predicate IsStampable(s: Section) {
    IsOsSection(s) && "id" in s.attrs
  }

  /** The first Content/Section, from index from on, that update_ovf_id stamps. */
  function FirstStampableFrom(secs: seq<Section>, from: nat): (r: Option<nat>)
    requires from <= |secs|
    ensures r.None? <==> forall k :: from <= k < |secs| ==> !IsStampable(secs[k])
    ensures r.Some? ==> from <= r.value < |secs| && IsStampable(secs[r.value])
    ensures r.Some? ==> forall k :: from <= k < r.value ==> !IsStampable(secs[k])
    decreases |secs| - from
  {
    if from == |secs| then None
    else if IsStampable(secs[from]) then Some(from)
    else FirstStampableFrom(secs, from + 1)
  }

  /** The descriptor with Content/Section k given the OVF id u. */
  function Stamp(d: Descriptor, k: nat, u: string): Descriptor
    requires k < |d.content|
  {
    d.(content := d.content[k := d.content[k].(attrs := d.content[k].attrs["id" := u])])
  }

  // ---- Properties of the rewrites -------------------------------------

  /** Only the File entry of this disk changes; afterwards it carries the new
      id and the combined href, and no File with an href still names the old id. */
  lemma RemapReferencesEffect(refs: seq<Elem>, oldImage: string, newImage: string, combined: string, k: nat)
    requires k < |refs| && newImage != oldImage
    ensures var r := RemapReferencesSpec(refs, oldImage, newImage, combined);
      (IsFileOf(refs[k], oldImage) ==>
         (r[k].attrs["id"] == newImage && r[k].attrs["href"] == combined && r[k].attrs.Keys == refs[k].attrs.Keys)) &&
      (!IsFileOf(refs[k], oldImage) ==> r[k] == refs[k]) &&
      !IsFileOf(r[k], oldImage)
  {
  }

  /** Sweeping with a non-blank root twice is sweeping once, and afterwards
      every non-empty parentRef is the root. */
  lemma SweepIdempotent(es: seq<Elem>, root: string)
    requires !IsBlank(root)
    ensures SweepEntriesSpec(SweepEntriesSpec(es, root), root) == SweepEntriesSpec(es, root)
    ensures forall k :: 0 <= k < |es| && HasParentRef(SweepEntriesSpec(es, root)[k]) ==>
      SweepEntriesSpec(es, root)[k].attrs["parentRef"] == root
  {
    var once := SweepEntriesSpec(es, root);
    forall k | 0 <= k < |es| ensures SetParentRef(once[k], root) == once[k] {
      if HasParentRef(es[k]) {
        assert once[k].attrs == es[k].attrs["parentRef" := root];
        assert once[k].attrs["parentRef" := root] == once[k].attrs;
      }
    }
  }

  /** remove_nics keeps exactly the Items that are not NICs, in their order. */
  lemma {:induction false} KeepNonNicsMembers(items: seq<Item>)
    ensures forall x :: x in KeepNonNics(items) <==> x in items && !IsNic(x)
  {
    if items != [] {
      var init := items[..|items| - 1];
      var last := items[|items| - 1];
      KeepNonNicsMembers(init);
      assert items == init + [last];
    }
  }

  /** A list without NICs is left as it is. */
  lemma {:induction false} KeepWithoutNics(items: seq<Item>)
    requires forall k :: 0 <= k < |items| ==> !IsNic(items[k])
    ensures KeepNonNics(items) == items
  {
    if items != [] {
      KeepWithoutNics(items[..|items| - 1]);
      assert items == items[..|items| - 1] + [items[|items| - 1]];
    }
  }

  /** Removing the NICs a second time removes nothing. */
  lemma KeepNonNicsIdempotent(items: seq<Item>)
    ensures KeepNonNics(KeepNonNics(items)) == KeepNonNics(items)
  {
    var r := KeepNonNics(items);
    KeepNonNicsMembers(items);
    assert forall k :: 0 <= k < |r| ==> !IsNic(r[k]) by {
      forall k | 0 <= k < |r| ensures !IsNic(r[k]) { assert r[k] in r; }
    }
    KeepWithoutNics(r);
  }
}
