# OVF identity remapping in the oVirt image uploader

This project is a Dafny model of the part of `ImageUploader` that turns an
unpacked oVirt export archive into one that can be imported again under fresh
identities. It proves properties of that model. The archive holds an OVF
descriptor, image files and their `.meta` sidecars. The uploader does three kinds
of work:

- **`__update_disk_id`.** Every disk Item of the descriptor gets a new image id,
  and its disk group a new group id (first seen wins).
  - The disk's References/File entry and DiskSection Disk entry are rewritten.
  - Its image file and sidecar are renamed, the sidecar's `IMAGE=` line is
    updated, and the group directory is renamed.
  - Three final sweeps then repair the snapshot links: the sidecars' `PUUID=`,
    the Items' `Parent`, and the DiskSections' `parentRef`. The last one uses the
    chain root recorded for the *last* disk only.
- **The editors** `remove_nics`, `update_ovf_name` and `update_ovf_id`, which
  `update_ovf_xml` runs in that order around `__update_disk_id`. Each runs only
  when configured, and the first failure ends the run.
- **The transfer plan.** `get_files_to_copy` lists the files to send. The
  ordering loop of `copy_files_nfs` sends the descriptor after everything else.

The model is organised as follows:

- `Base`: an option type and the POSIX path helpers.
- `Sidecar`: the `KEY=VALUE` text and Python's `re.findall`/`re.sub` on it.
- `Ovf` (`descriptor.dfy`): the descriptor tree and its element rewrites.
- `Fs` (`archive.dfy`): the archive as a sequence of files in `os.walk` order,
  with `find_file`, write and `os.rename` of files and directories.
- `Alloc`: the two identifier dictionaries as functions of the disks processed.
- `Sync`: the sidecar and image-file updates.
- `Passes`: the loops over the tree, each proved against a specification function.
- `Transfer`: `get_files_to_copy` and the copy order.
- `Engine`: each editor as a function of the uploader's state, and the lemmas
  about them.
- `Uploader`: the class `ImageUploader`. Its fields are the archive, the tree,
  the number of uuids drawn and `n_id_d`. Its methods are proved to compute the
  `Engine` functions.

`uuid.uuid4()` is the constant `gen: nat -> string`: the k-th uuid drawn is
`gen(k)`. Lemmas that need fresh ids take freshness as a precondition.

The Item loop of `__update_disk_id` is `Engine.Loop`, taken over a step
function. `Engine.DiskSteps` is the step of `__update_disk_id`: one Item through
`__chek_if_disk`, `__remap_id` and `__rewrite_ovf`. The methods that run the
loop take a step that agrees with it (`Engine.IsDiskStep`), so the lemmas about
the loop hold for any step.

## Model

| member | source | states |
|---|---|---|
| Fs.FindFile | src/__main__.py:897-903 | find_file returns the path of the first file in walk order whose name matches the pattern, or None; a returned name matches |
| Fs.FindIndex | src/__main__.py:897-903 | None exactly when no file matches; otherwise the index is a match and no earlier file matches |
| Fs.FindAfterReplace | src/__main__.py:897-903 | replacing a non-matching file by another non-matching one does not change what find_file returns |
| Fs.LookupAt | src/__main__.py:1014-1015 | with unique paths, reading a file's path gives that file's contents |
| Fs.WriteExisting | src/__main__.py:1019-1021 | rewriting an existing file keeps every path and its place, and paths stay unique |
| Engine.WrittenIsRead | src/__main__.py:1628-1643 | after write_ovf_file, reading the descriptor path gives the tree that was written |
| Uploader.ImageUploader.WriteOvfFile | src/__main__.py:1628-1643 | the descriptor file now holds the current tree; nothing else of the object changes |
| Fs.RenameFileInPlace | src/__main__.py:1032 | renaming a file to a free path changes that one entry's path, keeps its contents and keeps paths unique |
| Fs.RenameDirMoves | src/__main__.py:1438 | renaming a directory to a free path moves every file beneath it, keeps the rest, and keeps paths unique |
| Fs.WriteThenRename | src/__main__.py:1019-1032 | writing a file and then renaming it to a free path is one in-place change of that entry |
| Sidecar.FindAllAfterSub | src/__main__.py:1017 | after re.sub with a one-line value, re.findall finds the same number of occurrences, each carrying the new value |
| Sidecar.SubWithoutMatch | src/__main__.py:1017 | a text in which the key never occurs is left unchanged by re.sub |
| Sidecar.SubKeepsLines | src/__main__.py:1017 | with a key and value free of line breaks, re.sub keeps the number of line breaks: each match is replaced within its own line |
| Sync.ImageLinesNameGroup | src/__main__.py:1017 | after update_meta_file's substitution every IMAGE= line names the new group, as many IMAGE= lines remain, and the number of line breaks is unchanged, so no line is added or lost |
| Uploader.MetaFileUpdate | src/__main__.py:991-1034 | update_meta_file: None when `<old>.meta` is not found or is not text; otherwise the sidecar is rewritten and renamed |
| Sync.MetaUpdateInPlace | src/__main__.py:1003-1034 | when the sidecar is found and the new name is free, the sidecar's entry becomes `<dir>/<new>.meta` holding the substituted text; nothing else changes |
| Sync.RenameImageAndSidecar | src/__main__.py:1392-1428 | the image renames to its new id in its directory, and its sidecar is rewritten and renamed beside it; exactly these two entries change |
| Sync.MoveGroupDir | src/__main__.py:1430-1438 | renaming the group directory to the new group id keeps paths unique and leaves the image and sidecar under the new directory |
| Sync.RewriteImageMovesFiles | src/__main__.py:1390-1439 | __rewrite_ovf succeeds on fresh ids; the image's contents end at `<parent>/<newgroup>/<newimage>` and its updated sidecar beside it |
| Uploader.RewriteOvf | src/__main__.py:1382-1441 | __rewrite_ovf: write the tree, rename the image, update the sidecar, rename the group directory; fails at the first missing file |
| Passes.CheckIfDisk | src/__main__.py:1186-1202 | the three flags report the HostResource child, the InstanceId child and a ResourceType of 17; all three hold exactly when the Item is a disk |
| Passes.FindChild | src/__main__.py:1234-1238 | item.find: None exactly when no child has the tag; otherwise the first child with it |
| Ovf.FirstChild | src/__main__.py:1234-1238 | None exactly when no child has the tag; otherwise the index of the first such child |
| Ovf.SetChildText | src/__main__.py:1236 | the first child with the tag gets the text; the children, their tags and every other tag's text are kept |
| Passes.ReadDiskIds | src/__main__.py:1234-1238 | reads the texts of the disk's InstanceId and HostResource children, empty elements included |
| Alloc.GroupMapFirstSeen | src/__main__.py:1246-1272 | image_group_id_dict has exactly the old groups seen as keys, each mapped to the id generated for the first disk of that group |
| Alloc.NewGroupOf | src/__main__.py:1253-1266 | a disk's new group is the id generated for the first disk of its old group |
| Alloc.NewGroupOfAppend | src/__main__.py:1253-1272 | one more disk leaves the new group of every earlier disk as it was, and is given the group stored for its old group or else its own proposal |
| Alloc.SharedOldGroupSameNewGroup | src/__main__.py:1253-1266 | two disks that shared an old group id get the same new group id |
| Alloc.DistinctOldGroupsDistinctNewGroups | src/__main__.py:1222-1223 | with distinct generated ids, disks from different old groups get different new group ids |
| Alloc.ImageMap | src/__main__.py:1283 | the keys of image_id_dict are exactly the old image ids of the disks processed |
| Alloc.ImageMapLastWins | src/__main__.py:1283 | an old image id maps to the new id of the last disk that carried it |
| Passes.RemapReferences | src/__main__.py:1284-1324 | each References/File entry of the disk is rewritten and every other entry is kept |
| Ovf.RemapReferencesEffect | src/__main__.py:1307-1324 | the File entry with the old id and an href gets id := new id and href := combined id; every other entry is untouched; no File with an href still names the old id |
| Passes.RemapDiskEntries | src/__main__.py:1331-1379 | the Disk entry with the old diskId and a fileRef gets diskId := new id and fileRef := combined id; reports whether its non-empty parentRef equalled its old fileRef |
| Passes.RemapDiskSections | src/__main__.py:1326-1379 | only DiskSections change, as above; the root flag is set exactly when some DiskSection holds the disk's chain-root marker |
| Passes.RemapTreeLoops | src/__main__.py:1284-1379 | the References and DiskSection loops of __remap_id compute their specification and report the chain-root marker |
| Passes.RemapSpecEffect | src/__main__.py:1220-1283 | __remap_id fails exactly when InstanceId or HostResource is empty; otherwise InstanceId becomes the new image id and HostResource `<group>/<image>`; image_group_id_dict keeps an existing entry for the old group (first seen wins) and is otherwise given the proposal; image_id_dict's entry for the old image id is overwritten (last wins); the shape of the tree is kept |
| Passes.RemapSpecTree | src/__main__.py:1284-1379 | the rest of __remap_id's edit: the References and DiskSections are remapped to the new ids, the chain root is the combined id exactly when the disk's entry is the marker, and every other Item and every section's own attributes and entries are kept |
| Passes.RemapSpecShape | src/__main__.py:1234-1274 | __remap_id keeps the sections, their kinds and their Items |
| Passes.RemapDisk | src/__main__.py:1204-1380 | __remap_id computes the specified tree, ids and dictionaries, or fails as specified |
| Engine.DiskStepRoot | src/__main__.py:1376-1379 | n_id_d's parent_combined_id after a disk is its combined id when the disk's entry is the chain-root marker, and None otherwise |
| Engine.DiskStepConsistent | src/__main__.py:1485-1515 | one disk keeps the records consistent: two uuids per disk, the group map first-seen-wins, each disk given the group Alloc.NewGroupOf assigns it, the image map last-wins, n_id_d the last disk's |
| Engine.DiskStepIds | src/__main__.py:1222-1283 | after one disk, its InstanceId is the new image id logged for it, its HostResource is `<group>/<image>` with the group logged for it, and n_id_d holds the same ids |
| Engine.DiskStepMovesFiles | src/__main__.py:1492-1515 | when __rewrite_ovf finds the disk's image and sidecar in `<parent>/<cur>`, they end at `<parent>/<group>/<image>` and its `.meta`, with the group and image id logged for the disk |
| Engine.DiskLoopConsistent | src/__main__.py:1455-1515 | the disk loop keeps the records consistent over any list of Items |
| Engine.DiskIdRecords | src/__main__.py:1449-1515 | after the whole loop, the dictionaries, the groups given and n_id_d are the functions of the processed disks given above |
| Engine.DiskGroupsShared | src/__main__.py:1253-1266 | after the whole loop, two disks that shared an old group directory were given the same new group |
| Engine.DiskGroupsApart | src/__main__.py:1222-1272 | after the whole loop, when uuid4 never repeats, disks from different old group directories were given different new groups |
| Engine.LoopFailure | src/__main__.py:1503-1515 | once an Item fails, the loop fails whatever Items follow |
| Engine.LoopSection | src/__main__.py:1469-1515 | the loop over the Items of one more section is the loop so far followed by the loop over that section's Items |
| Engine.SectionLoopFailure | src/__main__.py:1503-1515 | once an Item of a section fails, the loop over that section fails |
| Engine.ItemStepShape | src/__main__.py:1470-1515 | processing an Item keeps the shape of the tree, so the positions still to be visited stay valid |
| Uploader.ItemPass | src/__main__.py:1480-1515 | the body of the Item loop takes the Item step: a disk per __chek_if_disk is remapped and rewritten with the next two uuids, any other Item is skipped; the shape of the tree is kept |
| Uploader.SectionPass | src/__main__.py:1469-1515 | the Item loop over one hardware section computes the loop over that section's Items and keeps the shape of the tree |
| Uploader.DiskPass | src/__main__.py:1455-1516 | the section loop of __update_disk_id computes the disk loop over all Items of the hardware sections |
| Uploader.SweepSidecar | src/__main__.py:1047-1074 | a sidecar that is not text fails; one whose single PUUID= names an old image id is rewritten; every other file is kept |
| Uploader.PuuidSweep | src/__main__.py:1036-1078 | fails exactly when some sidecar is not text; otherwise every file is swept as above, in place |
| Sync.PuuidFollowsParent | src/__main__.py:1053-1074 | a sidecar whose one PUUID names an old image id ends with one PUUID naming its new id |
| Uploader.ImageUploader.UpdateMetaFilePuuid | src/__main__.py:1036-1078 | succeeds exactly when every sidecar is readable; the archive is then the PUUID sweep of the old one |
| Passes.RemapItemParent | src/__main__.py:1111-1142 | a disk Item without a Parent fails; a disk's Parent that is an old image id takes its new id; other Items are kept |
| Passes.RemapItemParents | src/__main__.py:1100-1142 | fails exactly when some disk Item of the section has no Parent; otherwise every disk Item's Parent is remapped |
| Passes.RemapParents | src/__main__.py:1084-1142 | fails exactly when some hardware disk Item has no Parent; otherwise every disk Item's Parent is remapped |
| Uploader.ImageUploader.UpdateXmlItemPuuid | src/__main__.py:1080-1148 | the Parent remapping above, then the tree is written; fails exactly when a disk Item has no Parent |
| Passes.SweepEntries | src/__main__.py:1161-1180 | with a root, every non-empty parentRef becomes it and empty ones are kept; without one, any non-empty parentRef fails |
| Passes.SweepParentRefs | src/__main__.py:1156-1180 | the same over every DiskSection; other sections are kept |
| Ovf.SweepIdempotent | src/__main__.py:1170-1180 | sweeping twice is sweeping once, and afterwards every non-empty parentRef is the root |
| Uploader.ImageUploader.UpdateXmlDiskParentRef | src/__main__.py:1150-1184 | the parentRef sweep above, then the tree is written; fails exactly when there is no root and some parentRef is non-empty |
| Engine.SweepsRoot | src/__main__.py:1517-1534 | the final sweeps fail when n_id_d was never set; when they succeed they set the parentRefs to n_id_d's chain root |
| Engine.SweepsUseLastRoot | src/__main__.py:1453-1532 | the chain root of the parentRef pass is the one recorded for the last disk processed; with no disk and no earlier n_id_d the call fails |
| Uploader.ImageUploader.Sweep | src/__main__.py:1517-1534 | the three final passes in order, stopping at the first failure |
| Uploader.ImageUploader.UpdateDiskId | src/__main__.py:1443-1542 | __update_disk_id changes the uploader's state exactly as its specification, and succeeds exactly when it does |
| Passes.ScanNic | src/__main__.py:1609-1616 | reports whether the Item has two NIC ResourceType children and, if not, whether it is a NIC |
| Passes.KeepItems | src/__main__.py:1598-1616 | fails exactly when an Item of the section has two NIC ResourceTypes; otherwise the non-NIC Items are kept, and it reports whether any NIC was removed |
| Passes.RemoveNicItems | src/__main__.py:1585-1617 | fails exactly when an Item has two NIC ResourceTypes; otherwise hardware sections keep their non-NIC Items, and it reports whether any NIC was removed |
| Ovf.KeepNonNicsMembers | src/__main__.py:1609-1616 | the kept Items are exactly the Items that are not NICs |
| Ovf.KeepNonNicsIdempotent | src/__main__.py:1578-1626 | removing the NICs a second time removes nothing |
| Engine.NicSpecEffect | src/__main__.py:1578-1626 | after remove_nics no hardware section holds a NIC and every other Item stays; a second run changes nothing and writes nothing |
| Uploader.ImageUploader.RemoveNics | src/__main__.py:1578-1626 | remove_nics changes the state exactly as its specification: the tree loses its NICs, written only when one was removed |
| Engine.NameSpecEffect | src/__main__.py:1544-1576 | update_ovf_name succeeds exactly when there is one Content/Name; it becomes the new name, the rest of the tree is kept and the written file holds the tree |
| Uploader.ImageUploader.UpdateOvfName | src/__main__.py:1544-1576 | update_ovf_name changes the state exactly as its specification |
| Passes.FirstStampable | src/__main__.py:937-964 | the loop of update_ovf_id finds the first Content/Section that is an OperatingSystemSection with an id |
| Ovf.FirstStampableFrom | src/__main__.py:937-964 | None exactly when no section from there on is stampable; otherwise the first stampable one |
| Engine.StampedTreeEffect | src/__main__.py:917-964 | TemplateId becomes the fresh uuid unless it is the blank template; the first stampable section's id becomes the uuid; nothing else changes |
| Uploader.StampIds | src/__main__.py:917-964 | computes those edits and reports whether a section was stamped |
| Engine.RenameOvfMoves | src/__main__.py:966-984 | the descriptor is renamed to `<u>.ovf` and its directory to u; its contents end at `<parent>/<u>/<u>.ovf` |
| Uploader.MoveOvf | src/__main__.py:966-984 | the two renames of update_ovf_id; a descriptor at the archive root fails |
| Engine.OvfIdSpecEffect | src/__main__.py:905-989 | update_ovf_id fails without exactly one TemplateId or with the descriptor at the root; on success one uuid is drawn and the tree is the stamped tree |
| Engine.OvfIdMovesDescriptor | src/__main__.py:962-984 | the file at `<parent>/<u>/<u>.ovf` holds the stamped tree when a section was stamped, and the unedited file otherwise |
| Uploader.OvfIdPass | src/__main__.py:905-989 | update_ovf_id on a state value computes its specification |
| Uploader.ImageUploader.UpdateOvfId | src/__main__.py:905-989 | update_ovf_id changes the state exactly as its specification |
| Engine.XmlSpecNeedsDescriptor | src/__main__.py:1652-1662 | update_ovf_xml succeeds only when a `*.ovf` is found and parses |
| Engine.XmlSpecNothingConfigured | src/__main__.py:1664-1682 | with nothing configured, update_ovf_xml only loads the descriptor tree |
| Uploader.ImageUploader.RunEditors | src/__main__.py:1664-1682 | the editors in order, each when configured, stopping at the first failure |
| Uploader.ImageUploader.RunIdEditors | src/__main__.py:1672-1682 | __update_disk_id then update_ovf_id, each when configured, stopping at the first failure |
| Uploader.ImageUploader.UpdateOvfXml | src/__main__.py:1645-1682 | update_ovf_xml changes the state exactly as its specification, and succeeds exactly when it does |
| Transfer.Hrefs | src/__main__.py:1716-1722 | every href listed is the href attribute of some File entry |
| Transfer.HrefsInFileOrder | src/__main__.py:1716-1722 | the hrefs are listed in File order: the j-th is the href of an increasing sequence of Files that holds exactly the Files with an href |
| Transfer.HrefsComplete | src/__main__.py:1716-1722 | every File that has an href contributes it to the list |
| Transfer.PlanFiles | src/__main__.py:1716-1729 | the descriptor first, then for each href `images/<href>` followed by `images/<href>.meta` |
| Transfer.GetFilesToCopy | src/__main__.py:1684-1731 | empty when no `.ovf` is found or its path does not start with `master`; fails when it does not parse; otherwise the plan above |
| Transfer.LastMatch | src/__main__.py:1826-1831 | the last listed path ending with the name, or None exactly when none does |
| Transfer.EntryPass | src/__main__.py:1825-1839 | one file of the walk: copies for every listed path ending with its name unless it is the descriptor, and the last such path |
| Transfer.NonOvfCopiesHoldNoOvf | src/__main__.py:1829-1839 | the copies made during the walk never send a `.ovf` |
| Transfer.NonOvfCopiesComplete | src/__main__.py:1824-1839 | every non-descriptor file whose name ends a listed path is copied to that path under the remote directory |
| Transfer.EntryCopiesComplete | src/__main__.py:1826-1828 | every listed path ending with the file's name yields a copy of that file |
| Transfer.LastOvfCopyIsOvf | src/__main__.py:1829-1831 | the deferred copy is of a `.ovf` file of the archive |
| Transfer.CopyOrder | src/__main__.py:1823-1848 | with nothing to copy it fails; otherwise the walk's copies followed by the deferred descriptor; when the walk meets no descriptor it fails, standing for the UnboundLocalError the source raises because `ovf_file` is never bound |
| Transfer.OvfCopiedLast | src/__main__.py:1820-1848 | the descriptor is the last copy and no earlier copy is a `.ovf` |
| Base.BasenameOfJoin | src/__main__.py:1409-1412 | the last component of a joined path is the component that was joined |
| Base.DirnameOfJoin | src/__main__.py:1026-1027 | a file joined to a directory has that directory as its dirname |

## Left out

- NFS mounting and copying, privilege switching, the REST calls, unpacking with
  tar, the space tests, the progress bar, configuration and logging are not
  modelled. They are external processes, OS calls or library wrappers.
  `copy_files_nfs` is modelled only as the order of its copies, not their effect
  on the remote side. Its check for files already at the destination is left out.
- XML serialisation and parsing are not modelled. `write_ovf_file` stores the
  tree itself at the descriptor's path (`Doc`). Parsing reads it back, and a file
  that is not a `Doc` counts as a parse failure.
- `uuid.uuid4()` is the parameter `gen`. Freshness of its values is a lemma
  precondition. The code guarantees it only probabilistically.
- Attribute names and child tags are matched by their local name. The source
  matches any name that ends with the local name (`str(attr).endswith('id')`).
- Blankness (`str.strip()`) covers ASCII whitespace only.
- A section whose attributes name its type twice is visited twice by the source;
  the model visits each section once. The descriptor has one References list.
- Fs.RenameFile and Fs.RenameDir keep a renamed entry at its place in the
  sequence, so the model fixes the walk order after a rename. `os.walk` promises
  no order, so after a rename `find_file` may meet the files in another order.
- Engine.DiskStepIds and Engine.DiskStepMovesFiles state the agreement of a
  disk's InstanceId, HostResource, `n_id_d` and file names right after that
  disk's step. That the later disks of the loop leave them so is not stated.
- `find_file` is modelled as the first match in walk order, on paths relative to
  the archive root. The `root.split(source_dir)` computation of that relative
  path is not modelled.
- Write errors (`write_ovf_file` returning False) and other OS errors of a
  rename are left out, beyond the failures the model names (a missing source, a
  non-empty target directory).
- Uploader.RewriteOvf: an image that sits directly in the archive root makes the
  model fail. The source would then rename the archive directory itself.
- Uploader.ImageUploader.UpdateDiskId: it specifies the state after success only.
  After a failure, the partial writes and renames are unspecified. So are the
  InstanceId text and `n_id_d` that `__remap_id` sets before it fails.
  `update_ovf_xml` gives up after any failure.
- Uploader.ImageUploader.UpdateOvfId: it specifies the state after success only.
  The source renames the descriptor before it discovers that the descriptor sits
  in the archive root.
- Uploader.ImageUploader.UpdateDiskId: the loops of `__update_disk_id` run on a
  value of the object's state (`Uploader.DiskPass`), and the object then takes
  the result. The same holds for `update_ovf_id` (`Uploader.OvfIdPass`).
  In-place update of the object during those loops is therefore not modelled.
- `n_id_d` is a field of the object, initially None, standing for the module
  global. With no disk processed and no earlier value, the final parentRef pass
  has no chain root, and the call fails, as the missing global does in the
  source.
