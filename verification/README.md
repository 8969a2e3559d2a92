# Device trees and FAT volumes, verified

This project models two components of the kernel and proves what they are for.

The first is **libfdt**, which keeps a whole tree inside one byte buffer (Devicetree Specification v0.4, sections 5.2
to 5.5): a header of ten big-endian words, a reserve map, a structure block of tags and a block of names.  The model has
three layers.

* *Bytes* (`Bytes`, `Format`, `Blob`): words, NUL-terminated strings, the overlapping `memmove`, the header, and the tag
  reader with its 32-bit sums.  A blob is an `array<byte>`; every function that changes it is a method that changes it.
* *Concrete syntax* (`Tree`): a `Forest` keeps every tag down to its padding, so that a structure block *is* the
  encoding of one forest (`HoldsIsParse`), and a `Ctx` is a forest with one hole, a position in the block.
* *Trees* (`TreeOps`, `Merging`, `PhandleLaws`): what a client sees, with names resolved and padding and NOPs gone.

On these stand the readers (`Walk`, `Reader`), paths (`Components`, `Paths`, `PathPrinting`), the in-place editor
(`Splicing`, `Editor`, `NodeEditor`, `NodeOps`, `Blanking`, `Inplace`, `Reserves`, `ReserveEditor`, `Packing`, `Overruns`),
the overlay merge (`Overlay`, `MergeLaws`, `Targets`, `OverlayMerge`), phandle renumbering with the local references
(`Siblings`, `Renumbering`, `MaxPhandle`, `FixupLaws`, `FixupStores`, `FixupSites`, `LocalFixups`, `StrayFixups`), the
sequential writer (`TokenLog`, `Writer`, `WriterLife`, `WriterFinish`, `WriterSession`) and the validator (`Checker`).  The
usual shape is: a method is proved against a function of its inputs, its `ensures` says what the tree, the names and the
bytes outside become, and laws about those functions are lemmas.  Where a caller holds a node by its offset, the method takes
the position of that node as ghost arguments (`NodeAt`), and says that the node is still there afterwards.  `MadeBlob` puts
blobs together for the inputs on which an operation fails.

The second is the **FAT cluster engine**: the disk is an `array` of sectors with reliable reads and writes (`Volume`),
the exFAT bitmap and the chains (`Bitmap`), the allocator with its rollback (`Allocator`), file contents (`FileData`),
arbitrary runs of these operations (`TableRuns`) and the read-only driver with its cached chain (`IndexedRead`).  On it stand
both kinds of directories (`DirEntries`).

* *exFAT*: entry sets (`EntrySets`, `DirSets`), searching a directory and finding room in it (`ExDir`, `ExDirLaws`,
  `SetBuffer`, `ExDisk`, `ExCreate`, `ExMake`, `ExSpill`), overwriting a file (`ExFile`, `ExRewrite`), and whole paths
  (`ExPath`, `ExWrite`, `ExWay`, `ExDriver`, `ExSlim`, `ExFilePath`, `ExOthers`).
* *FAT32 with 8.3 names*: names and entries (`Dir83`), directories and new subdirectories (`Fat32Dir`), the file at the end
  of a path (`Fat32File`), and whole paths (`Fat32Path`, `Fat32Write`, `Fat32Laws`, `Fat32Driver`, `Fat32Others`).

For both, the main results are about paths: what `WriteFilePath` has written is what `ReadFilePath` returns, and whatever a
write does, a file under any other path reads the same (`WriteThenRead`, `WriteBeside`). The chains of the directories on
the path are ghost arguments (`Walk` and `PathGoes`: the names lead through these directories and no further); `Keeping`
states what a step keeps of the clusters in use.

Where the code does less than its description promises, the model follows the code:

* `fdt_add_string_` compares `totalsize - offset` unsigned.  `Writer.GuardIs` proves that the guard means what it should
  exactly when the strings and the new one are together no longer than the buffer, and `Writer.GuardFails` gives numbers for
  which it lets a string through that does not fit.  `ShortNameIsSafe` shows that names below 64 characters never get there.
* `fdt_setprop_inplace_namelen_partial` adds an index and a length in 32 bits.  `Inplace.GuardIs` says exactly when its check
  is right, and `Inplace.GuardFails` gives an index that gets past it for every property.
* `fdt_generate_phandle` rejects only the last phandle that can be given as the largest one; when a node holds the cell
  0xffffffff it returns 0 (`GenerateFails`).
* `fdt_rw_probe_` checks the room of one reserve entry only.  On a blob whose map runs into the structure block,
  `fdt_add_mem_rsv`, `fdt_del_mem_rsv` and `fdt_pack` go through, and the blob no longer reads as the same tree (`AddFails`,
  `PackFails`); `InsertedStruct`, `RemovedStruct` and `Pack` say exactly when the structure block survives.
* `fdt_add_mem_rsv` takes an error code for the index of the new entry when the map is not terminated.  `AddLost` shows that
  the entry is then not in the map.
* `overlay_update_local_node_references` stores without looking at the length of the value.  `FixupStores.StrayIs` proves that
  every store lies inside its own value exactly when every place listed does (`Within`, which needs no `delta`), and
  `StrayDamages` gives an overlay that can be edited, and that cannot be read any more after the store.
* `fdt_check_full` accepts a blob of the largest representable size only if it has no names to read, because the name
  readers refuse that size (`Valid`).
* The reserve map ends at its first entry of size 0, so the entries a client writes are read back up to that one
  (`UpToEmpty`, `UpToEmptyIsAll`).
* A FAT32 name whose first byte is 0xE5 counts as deleted: the entry made for it is never found again.  A written file can be
  read exactly if no name of its path is one (`Lasting`).
* `exfat_find_in_dir` stops at the first entry of type 0, but a directory without room gets a further cluster although an
  entry of type 0 stands before it.  A new file can be read exactly if none does (`Visible`); `HiddenEntry` is a directory
  where one does.
* `exfat_find_in_dir` copies sets of up to 41 entries into a buffer for 32.  `SetBuffer.CopiesFit` proves that every set
  that a search copies fits exactly when none that it comes to has 32 secondary entries or more (`Slim`); `CopyFails` is a
  directory that every search overruns the buffer on.  The searches of the model have the buffer, and ask for `Slim`; what
  the engine writes itself never breaks it (`NarrowPut`, `ExSlim`).
* `exfat_find_free_set` extends a directory even for a set that is longer than a cluster, which a name of more than 210
  characters has where clusters have 512 bytes (`LongNames`).  The set then runs on into the next cluster of the heap
  (`Overlong`); `SpillFails` is a volume on which that overwrites another file.
* `exfat_write_file_path` does not look whether the last component is a directory: it replaces one by a file.
* `exfat_alloc_chain_for_size` rounds up in 32 bits.  A size for which that wraps takes no cluster, and the end mark is
  written into table entry 0 (`NoRoomLeft`).

## Model

| member | source | states |
|---|---|---|
| `Bytes.MemMove` | kernel/string.c:31-45 | the copy loses no byte, whichever way the regions overlap |
| `Bytes.BeOfBytes` | kernel/libfdt.h:141-162 | storing a word and loading it gives it back |
| `Bytes.BytesOfBe` | kernel/libfdt.h:141-162 | loading bytes and storing the word gives the bytes back |
| `Format.TagAtTok` | kernel/fdt.c:162-221 | a reader on an encoded tag sees that tag and steps exactly over it |
| `Format.TokAtTag` | kernel/fdt.c:162-221 | whatever the tag reader accepts is the encoding of what it read |
| `Blob.OffsetPtrIs` | kernel/fdt.c:140-160 | the 32-bit checks accept exactly the regions inside the structure block |
| `Blob.NextTag` | kernel/fdt.c:162-221 | tag and next offset, for any offset and any bytes |
| `Tree.ParseEnc` | kernel/fdt.c:162-285 | reading the tags of an encoded tree gives the tree back |
| `Tree.EncParse` | kernel/fdt.c:162-285 | whatever reads as a tree is its encoding |
| `Tree.HoldsIsParse` | kernel/fdt.c:162-285 | a block holds a tree if and only if it parses to it |
| `Tree.EditAt` | kernel/fdt_rw.c:55-96 | splicing bytes inside one subtree changes that subtree and nothing else |
| `Reader.NextNode` | kernel/fdt.c:247-285 | the loop ends, with the offset and depth of the scan it specifies |
| `Reader.SubnodeOffset` | kernel/fdt_ro.c:225-242 | the loop computes the subnode search |
| `Walk.SubnodeOffsetIs` | kernel/fdt_ro.c:225-242 | the search finds the first child whose name matches, with or without unit address, and only a child |
| `Walk.FirstSubnodeIs` | kernel/fdt.c:287-296 | the first child, or NOTFOUND if there is none |
| `Walk.NextSubnodeIs` | kernel/fdt.c:298-313 | the next sibling, whatever lies inside the node |
| `Walk.NodeEndIs` | kernel/fdt_wip.c:73-81 | the offset behind the node's END_NODE |
| `Reader.GetString` | kernel/fdt_ro.c:34-98 | the string at an offset if and only if it is terminated inside the strings block |
| `Reader.GetProperty` | kernel/fdt_ro.c:397-425 | the loop computes the property search |
| `Walk.GetPropertyIs` | kernel/fdt_ro.c:397-425 | the search finds the first property of that name before the subnodes |
| `Reader.FindString` | kernel/fdt.c:315-325 | the first place where the terminated string stands |
| `Splicing.ProbeIsEditable` | kernel/fdt_rw.c:14-41 | the probe with its 32-bit sums accepts exactly the blobs in order |
| `Splicing.SpliceBlob` | kernel/fdt_rw.c:55-69 | BADOFFSET exactly out of range, NOSPACE exactly without room; on success the tail has moved and no other byte changed |
| `Splicing.FindAddString` | kernel/fdt_rw.c:128-154 | the offset of the name, found or appended; no room leaves every byte alone |
| `Splicing.DelLastString` | kernel/fdt_rw.c:99-104 | taking a new name back restores every used byte |
| `Editor.SetProp` | kernel/fdt_rw.c:277-290 | succeeds if and only if it fits; sets that property of that node; failure leaves all used bytes alone |
| `Editor.AddProperty` | kernel/fdt_rw.c:203-234 | a new property goes first; the name is rolled back if the property does not fit |
| `Editor.ReplacedTree` | kernel/fdt_rw.c:55-96 | an edit at one position is that edit of the whole tree and leaves the rest of the tree alone |
| `Editor.BodyIsTree` | kernel/fdt_rw.c:277-395 | an edit of one node's body, seen in the whole tree |
| `TreeOps.SetGet` | kernel/fdt_rw.c:277-290 | after a set the property reads as written, every other property and subnode as before |
| `TreeOps.DelGet` | kernel/fdt_rw.c:319-332 | deleting one property keeps the others and the subnodes |
| `TreeOps.AddSubGet` | kernel/fdt_rw.c:334-376 | a new subnode comes first and leaves properties and siblings alone |
| `NodeEditor.DelProp` | kernel/fdt_rw.c:319-332 | deletes that property and nothing else |
| `NodeEditor.AppendProp` | kernel/fdt_rw.c:292-317 | succeeds if and only if it fits; the value grows at its end |
| `NodeOps.SetName` | kernel/fdt_rw.c:236-257 | succeeds if and only if it fits; renames that node only |
| `NodeOps.AddSubnode` | kernel/fdt_rw.c:334-376 | EXISTS exactly if a matching subnode exists, NOSPACE exactly if it does not fit, else an empty subnode at the returned offset |
| `NodeOps.DelNode` | kernel/fdt_rw.c:383-395 | the node is gone, its siblings follow on |
| `Blanking.NopNode` | kernel/fdt_wip.c:83-94 | only the bytes of the node change, all to NOPs; the tree read afterwards lacks the node |
| `Blanking.NopNodeNodes` | kernel/fdt_wip.c:83-94 | the node and those inside it leave the list of nodes with offsets; all others keep theirs |
| `Blanking.NopProperty` | kernel/fdt_wip.c:59-71 | the bytes of the property become NOPs and no other byte changes; the tree read afterwards lacks it, and every node inside is where it was |
| `Blanking.BlankIsCut` | kernel/fdt_wip.c:51-94 | blanking and cutting out read as the same tree |
| `Inplace.SetPropInplacePartial` | kernel/fdt_wip.c:13-31 | NOTFOUND and NOSPACE exactly; otherwise that part of the value is written, no other byte changes, every tag and node stays |
| `Inplace.GuardIs` | kernel/fdt_wip.c:26-27 | the 32-bit check accepts exactly the stores inside the value if and only if the sum does not wrap below the length |
| `Inplace.GuardFails` | kernel/fdt_wip.c:26-27 | an index that the check accepts for every property although it lies outside |
| `Inplace.SetPropInplace` | kernel/fdt_wip.c:33-49 | a value of the same length is replaced, any other refused |
| `Inplace.ShapeNodes` | kernel/fdt_wip.c:13-31 | a blob of the same shape has every node at the same offset |
| `ReserveEditor.AddMemRsv` | kernel/fdt_rw.c:156-171 | error codes exactly; the entry stands behind the others, or in front of a map that is not terminated, and everything behind it has moved up; with the map in front of the structure block it is read last and the tree is as before |
| `ReserveEditor.AddLost` | kernel/fdt_rw.c:156-171 | in a map that is not terminated the entry is not in the map afterwards; the tree is as before |
| `ReserveEditor.DelMemRsv` | kernel/fdt_rw.c:173-183 | error codes exactly, NOTFOUND in a map that is not terminated; the entry is cut out; with the map in front of the structure block exactly that entry is gone and the tree is as before |
| `Overruns.InsertedStruct` | kernel/fdt_rw.c:156-171 | the structure block survives an added entry if and only if what the insertion writes over it is what stands there |
| `Overruns.RemovedStruct` | kernel/fdt_rw.c:173-183 | the same for a deleted entry |
| `Overruns.AddFails` | kernel/fdt_rw.c:156-183 | an accepted blob that no longer reads as the same tree after adding or deleting an entry |
| `Overruns.PackFails` | kernel/fdt_rw.c:488-501 | an accepted blob that no longer reads as the same tree after packing |
| `Reserves.NumMemRsv` | kernel/fdt_ro.c:189-199 | the index of the first entry of size 0, or TRUNCATED if there is none inside the blob |
| `Reserves.UpToEmptyIsAll` | kernel/fdt_ro.c:189-199 | a reserve list is read back whole if and only if no entry is empty |
| `Packing.PackBlocks` | kernel/fdt_rw.c:397-418 | the three blocks arrive whole, in place or elsewhere, though header words are read and written in between |
| `Packing.Pack` | kernel/fdt_rw.c:488-501 | total size equal to the data; structure and names survive if and only if no move overwrites them early; with the map in front they do, the tree and the reserve map are the same and packing twice changes nothing |
| `Packing.SparedApart` | kernel/fdt_rw.c:397-418 | no move overwrites anything early when the map ends before the structure block |
| `Packing.OpenInto` | kernel/fdt_rw.c:420-486 | for any overlap of blob and buffer: success exactly if there is room, then an ordered blob with the same contents, else no byte changed |
| `Overlay.ApplyNode` | kernel/fdt_overlay.c:769-814 | on success the target subtree is the recursive merge; success or not the held target offset stays valid and nothing outside changes; it fails for want of space only, and not if as many bytes are free as the overlay can take |
| `Overlay.ApplyProps` | kernel/fdt_overlay.c:772-790 | the overlay's properties are set one after the other |
| `MergeLaws.MergeOverrides` | kernel/fdt_overlay.c:749-814 | after a merge a property reads as the overlay's last value, or as the base's if the overlay has none |
| `MergeLaws.MergeKeepsOthers` | kernel/fdt_overlay.c:749-814 | subnodes that the overlay does not name are unchanged |
| `MergeLaws.MergeChild` | kernel/fdt_overlay.c:749-814 | a subnode that both name is the merge of the two |
| `MergeLaws.MergeAtPath` | kernel/fdt_overlay.c:749-814 | at every path of the overlay the result is the merge at that path |
| `MergeLaws.MergedProperty` | kernel/fdt_overlay.c:749-814 | so every property at every path has the value the merge rule says |
| `MergeLaws.MergeTwice` | kernel/fdt_overlay.c:749-814 | merging the same overlay again changes nothing |
| `Targets.NodeByPhandle` | kernel/fdt_ro.c:710-733 | the loop computes the search it specifies, or BADPHANDLE for 0 and all ones |
| `Targets.PhandleNodeAt` | kernel/fdt_ro.c:710-733 | in the blob of a tree it finds the first node, in document order, with that phandle, or NOTFOUND |
| `Targets.PathNodeAt` | kernel/fdt_ro.c:250-296 | following a path finds the node that the names lead to, and another body there is that replacement in the whole tree |
| `Targets.PathPut` | kernel/fdt_overlay.c:43-79 | what has been put at the end of a path is read there |
| `Targets.PathPutOther` | kernel/fdt_overlay.c:43-79 | a path that branches off at a sibling leads where it led |
| `Targets.PhandlePut` | kernel/fdt_overlay.c:43-79 | a target that keeps its phandle is found under it again |
| `Targets.PhandlePutOther` | kernel/fdt_overlay.c:43-79 | other phandles lead where they led |
| `OverlayMerge.TargetOffset` | kernel/fdt_overlay.c:28-79 | the target by phandle, else by path, or the exact error |
| `OverlayMerge.ApplyFragment` | kernel/fdt_overlay.c:831-861 | one fragment: the merge at its target; a missing target is that error and no change |
| `OverlayMerge.MergeOverlay` | kernel/fdt_overlay.c:831-861 | on success the tree is the base with every fragment merged in order; success or not the blob is well formed and nothing around the tree changes; with enough room it succeeds, or returns the error of the first fragment whose target is missing |
| `Renumbering.PhandleAddOffset` | kernel/fdt_overlay.c:101-120 | error codes exactly; on success the one cell moves by delta |
| `Renumbering.AdjustNode` | kernel/fdt_overlay.c:137-158 | goes through exactly if every phandle stays in range; then all of them, and only they, move by delta; every tag keeps its name, length and place |
| `PhandleLaws.ShiftedPhandles` | kernel/fdt_overlay.c:137-180 | the phandles of the shifted tree, node by node |
| `PhandleLaws.NoClash` | kernel/fdt_overlay.c:1042-1060 | shifted by the base's maximum, overlay phandles exceed all base phandles and stay distinct exactly as before |
| `LocalFixups.UpdateNode` | kernel/fdt_overlay.c:201-270 | exactly the cells that the fixups list move, in the nodes of the same names, at any depth; BADOVERLAY exactly as specified; every tag and the fixups stay |
| `LocalFixups.UpdateLocalReferences` | kernel/fdt_overlay.c:288-306 | the same from the root, or nothing to do without fixups |
| `LocalFixups.RenumberOverlay` | kernel/fdt_overlay.c:174-306 | both steps: success exactly if both specifications succeed, and then their composition |
| `FixupLaws.MovedOnce` | kernel/fdt_overlay.c:238-252 | a cell listed once and overlapped by no other listed cell moves by delta once |
| `FixupLaws.FixAtPath` | kernel/fdt_overlay.c:256-267 | at every path of the fixups the node there has got those fixups |
| `FixupLaws.FixKeepsPhandles` | kernel/fdt_overlay.c:201-306 | fixups that are not for phandle properties leave every phandle alone |
| `FixupLaws.ReferenceKept` | kernel/fdt_overlay.c:137-306 | after the shift a moved cell names exactly the nodes it named before |
| `FixupLaws.LocalReference` | kernel/fdt_overlay.c:174-306 | a cell listed once refers to exactly the same overlay nodes after both steps |
| `FixupStores.StrayIs` | kernel/fdt_overlay.c:201-269 | the fixups store inside their own values if and only if every listed place does; they are refused if and only if one is no whole number of cells, or for a property or node that is missing |
| `StrayFixups.StrayDamages` | kernel/fdt_overlay.c:235-245 | an overlay that can be edited, whose fixups list the place behind a value, and that cannot be read any more once the cell there has moved |
| `MaxPhandle.FindMaxPhandle` | kernel/fdt_ro.c:114-140 | on the blob of a tree, the largest phandle of its nodes |
| `MaxPhandle.GeneratePhandle` | kernel/fdt_ro.c:142-158 | a positive phandle that no node has if and only if the largest is below the last one; the error exactly at the last one; 0 beyond it |
| `MaxPhandle.GenerateFails` | kernel/fdt_ro.c:150-156 | a blob for which the sum wraps to 0 |
| `Paths.PathOffset` | kernel/fdt_ro.c:250-296 | the loop computes the lookup it specifies, for every absolute path |
| `Paths.LookupBelow` | kernel/fdt_ro.c:250-296 | looking up the names of a node, one after the other, leads to it if and only if each is the first of its siblings that answers to its name |
| `PathPrinting.GetPath` | kernel/fdt_ro.c:571-621 | the buffer gets the path of the walk it specifies; error codes exactly |
| `PathPrinting.Printed` | kernel/fdt_ro.c:571-621 | for a rooted tree without slashes in its names that path is the names from the root, and it is printed exactly if it fits |
| `PathPrinting.PrintedIsFound` | kernel/fdt_ro.c:250-621 | looking a printed path up leads back to the node if and only if no node on the way has an earlier sibling that answers to its name |
| `PathPrinting.RootPrinted` | kernel/fdt_ro.c:571-621 | the root prints as a slash, which leads back to it |
| `Writer.BeginNode` | kernel/fdt_sw.c:219-234 | state errors and NOSPACE exactly; success appends this call to what has been written, failure changes no byte |
| `Writer.CloseNode` | kernel/fdt_sw.c:236-248 | the same for the end of a node |
| `Writer.Property` | kernel/fdt_sw.c:325-335 | the same for a property; when it fails every byte but free space is as before, the rolled-back name included |
| `Writer.FindAddString` | kernel/fdt_sw.c:276-291 | the offset returned resolves to the name, new or sharing the end of an older string |
| `Writer.GuardIs` | kernel/fdt_sw.c:257-260 | the unsigned guard is right if and only if the strings and the new one are no longer than the buffer |
| `Writer.GuardFails` | kernel/fdt_sw.c:257-260 | numbers for which the guard accepts a string that does not fit |
| `Writer.PrependDraft` | kernel/fdt_sw.c:250-265 | a string put in front of the others leaves every emitted name alone |
| `Writer.EmitDraft` | kernel/fdt_sw.c:94-107 | one more tag behind the others is one more entry of the log |
| `WriterLife.CreateWithFlags` | kernel/fdt_sw.c:109-141 | an empty draft, or the exact error and no change |
| `WriterLife.AddReservemapEntry` | kernel/fdt_sw.c:188-206 | the entry is recorded last; errors exactly, changing nothing |
| `WriterLife.FinishReservemap` | kernel/fdt_sw.c:208-217 | the same reserve list, now in the structure state |
| `WriterLife.Resize` | kernel/fdt_sw.c:148-186 | the draft is the same in the new buffer, for any overlap of the two |
| `WriterFinish.RelocateNames` | kernel/fdt_sw.c:359-374 | the walk rewrites every name offset and nothing else |
| `WriterFinish.RelocReads` | kernel/fdt_sw.c:353-371 | relocation changes no name |
| `WriterFinish.Finish` | kernel/fdt_sw.c:337-384 | the blob reads as a tree if and only if the calls were those that write it, and the reserve map is the one entered |
| `WriterSession.Session` | kernel/fdt_sw.c:109-384 | a whole run succeeds if and only if what it writes fits into the buffer, shared names counted once; then it reads back as what was written |
| `WriterSession.FootprintGrows` | kernel/fdt_sw.c:94-335 | the room a run needs never shrinks, so a call that does not fit dooms the run |
| `WriterSession.ShortNameIsSafe` | kernel/fdt_sw.c:250-265 | in every run a name below 64 characters meets the guard's condition |
| `TokenLog.RunIsForest` | kernel/fdt_sw.c:359-374 | a terminated run of tags parses to a forest exactly when it is that forest's run |
| `TokenLog.RunIsTree` | kernel/fdt_sw.c:219-384 | ... and reads as a tree exactly when its log is the script of the tree |
| `Checker.HeaderIs` | kernel/fdt.c:52-138 | a checked header is exactly what the other functions rely on |
| `Checker.AcceptsRoot` | kernel/fdt_check.c:13-96 | the loop accepts exactly: properties, NOPs, then at most one node with an empty name, balanced, names readable |
| `Checker.CheckFull` | kernel/fdt_check.c:13-96 | on arbitrary bytes it ends, and returns 0 if and only if the blob is valid |
| `Checker.NextNodeClean` | kernel/fdt.c:247-285 | on a valid blob a node walk fails with NOTFOUND only |
| `Volume.ReadsBack` | kernel/fs_fat32.c:179-208 | a table entry reads back as written, cut to 28 bits, every other as before, and the top four bits of all stay |
| `Volume.WriteFatEntry` | kernel/fs_fat32.c:195-208 | that entry changes, its top four bits and every other entry and every heap sector do not |
| `Bitmap.MarkBitmap` | kernel/fs_fat32.c:317-343 | exactly one bit changes, wherever in the bitmap's chain its byte lies; no bitmap is no change, one that is too small an error |
| `Bitmap.BitApart` | kernel/fs_fat32.c:321-337 | bits of different bytes lie in different bytes on disk |
| `Allocator.AllocCluster` | kernel/fs_fat32.c:345-366 | the first free cluster, marked in both tables, or 0 and no change |
| `Allocator.FreeChain` | kernel/fs_fat32.c:368-379 | exactly the clusters of the chain become free in both tables |
| `Allocator.AllocChainForSize` | kernel/fs_fat32.c:691-715 | succeeds if and only if rounding up does not wrap and enough clusters are free; else both tables are as they were, but for the end mark in entry 0 when it wraps |
| `Allocator.TakenAgree` | kernel/fs_fat32.c:345-366 | an allocation keeps table and bitmap in agreement |
| `Allocator.FreedAgree` | kernel/fs_fat32.c:368-379 | so does freeing |
| `TableRuns.DoesAgree` | kernel/fs_fat32.c:345-379 | every operation keeps the agreement, and the number of free clusters changes by what it takes or gives back |
| `TableRuns.RunAgrees` | kernel/fs_fat32.c:345-715 | so it is over a run of any length of allocations, refusals, frees, extensions and writes: the free clusters at the end are those at the start, less what has been taken, and what has been given back |
| `Allocator.AllocThenFree` | kernel/fs_fat32.c:691-715 | allocating and freeing restores both |
| `FileData.WriteChain` | kernel/fs_fat32.c:717-748 | the chain starts with the data and no sector outside it changes |
| `FileData.ReadFileFromCluster` | kernel/fs_fat32.c:1452-1480 | the first bytes of the chain, as many as file and buffer hold |
| `FileData.OtherFile` | kernel/fs_fat32.c:717-748 | files with other clusters keep their contents |
| `EntrySets.BuildEntrySet` | kernel/fs_fat32.c:750-793 | the set of the name, its first 255 characters at most |
| `EntrySets.ParseFileSet` | kernel/fs_fat32.c:407-447 | the loops compute the parse they specify |
| `EntrySets.ParseBuilt` | kernel/fs_fat32.c:407-447 | parsing a built set gives back name, cluster, size and kind, whatever the checksum |
| `DirSets.WriteEntrySet` | kernel/fs_fat32.c:672-689 | the set with its checksum stands from that byte on, across sectors and even behind the end of the cluster, and nothing else changes |
| `DirSets.StaysInside` | kernel/fs_fat32.c:595-608 | the bytes written lie in sectors of the cluster if and only if the set ends inside it |
| `DirSets.CollectEntries` | kernel/fs_fat32.c:381-405 | the bytes of the cluster from that offset, copied into the buffer, or -1 and nothing copied when they leave the cluster |
| `DirSets.WrittenSet` | kernel/fs_fat32.c:672-689 | a written set is found where it was written |
| `ExFile.OverwriteFile` | kernel/fs_fat32.c:931-951 | -7 exactly without room; on success the file holds the data, its set stands where it stood, and only its own clusters and entry changed |
| `ExDisk.FindInDir` | kernel/fs_fat32.c:449-533 | through its buffer of 1024 bytes the loops compute the search they specify: the first set of that name up to case, -2 at an end mark, -3 behind the last cluster |
| `SetBuffer.CopiesFit` | kernel/fs_fat32.c:490-499 | every set that a search copies fits into the buffer if and only if none that it comes to has 32 secondary entries or more |
| `SetBuffer.CopyFails` | kernel/fs_fat32.c:490-499 | a directory on which every search overruns the buffer |
| `SetBuffer.ThinIs` | kernel/fs_fat32.c:470-530 | the searches for all names fit if and only if no set before the end mark is too long |
| `SetBuffer.NarrowPut` | kernel/fs_fat32.c:672-689 | a built set leaves a cluster without sets that are too long |
| `SetBuffer.SlimPut` | kernel/fs_fat32.c:449-689 | after a set has been written, a search that succeeds comes to none that is too long if it did not before |
| `ExDirLaws.FoundNew` | kernel/fs_fat32.c:449-669 | a set written into the room found is found there if and only if no earlier cluster has an end mark; otherwise the search stops at that mark |
| `ExDirLaws.FoundSame` | kernel/fs_fat32.c:848-857 | a set written over one of the same name is found where that was |
| `ExDirLaws.FoundOther` | kernel/fs_fat32.c:449-533 | every other set is still found, unchanged |
| `ExDirLaws.HiddenEntry` | kernel/fs_fat32.c:629-669 | a directory whose new entry no search comes to |
| `ExDirLaws.NameFits` | kernel/fs_fat32.c:848-857 | the set of a name that was found is never longer than the one found |
| `ExDir.FreeIsRoom` | kernel/fs_fat32.c:610-656 | the place found lies inside the cluster, behind no end mark, and starts with one or is free throughout |
| `ExDir.TidyPut` | kernel/fs_fat32.c:672-689 | writing a set keeps the sets of a cluster apart from each other and from free entries |
| `ExCreate.FindFreeSet` | kernel/fs_fat32.c:610-669 | the first room, or the start of a further cleared cluster, always that for more entries than a cluster holds; -1 exactly when none is free |
| `ExMake.CreateEntry` | kernel/fs_fat32.c:795-846 | -2 and -3 exactly; on success a set no longer than a cluster stands in the first room, its clusters hold the data or an empty directory, and nothing else in use has changed but the bitmap; a longer one fills a new cluster and runs on into the next |
| `ExSpill.LongNames` | kernel/fs_fat32.c:750-793 | a set is longer than a cluster if and only if the name has more than 210 characters and clusters have 512 bytes |
| `ExSpill.SpillHits` | kernel/fs_fat32.c:658-689 | the cluster behind the new one is overwritten at its start if it belongs to somebody else |
| `ExSpill.SpillFails` | kernel/fs_fat32.c:658-689 | a volume on which creating an empty file under any such name overwrites the contents of another file |
| `ExWrite.CreatedFound` | kernel/fs_fat32.c:449-846 | a created entry is found, with its cluster, size and kind, if and only if it is visible |
| `ExPath.FollowPath` | kernel/fs_fat32.c:859-890 | the record at the end of the path, or the exact error |
| `ExPath.ReadFilePath` | kernel/fs_fat32.c:892-901 | every error code exactly; otherwise the first bytes of the file's chain, as many as file and buffer hold |
| `ExDriver.ReadsRight` | kernel/fs_fat32.c:892-901 | reading a file that a path leads to gives its first bytes; an empty one is an error |
| `ExFilePath.WriteFilePath` | kernel/fs_fat32.c:903-960 | every result exactly, also when directories have to be made; on success the path leads to a file that holds the data if and only if what was found or made can be seen; whatever the result, only one set of one directory, the bitmap and the old file have changed |
| `ExOthers.WriteThenRead` | kernel/fs_fat32.c:892-960 | what has been written is read back, as much as the buffer takes |
| `ExOthers.OtherPathKept` | kernel/fs_fat32.c:903-960 | a file under another path is reached as before and holds what it held, though a directory on the way may be longer |
| `ExOthers.WriteBeside` | kernel/fs_fat32.c:892-960 | so it reads the same after the write, whatever its result |
| `ExWrite.TidyKept` | kernel/fs_fat32.c:903-960 | the directory that was written into stays tidy |
| `ExWrite.NarrowKept` | kernel/fs_fat32.c:903-960 | and without sets that are too long for the search |
| `ExFile.OtherFileKept` | kernel/fs_fat32.c:903-960 | every other file keeps its chain and its contents |
| `ExFile.ExtendDirectory` | kernel/fs_fat32.c:658-669 | the chain grows by one cleared cluster, both tables exactly, older contents stay, no other cluster changes |
| `Components.GetComponent` | kernel/fs_fat32.c:1398-1434 | takes the first component off the list that the path is split into, cut to its buffer |
| `Dir83.MakeName83` | kernel/fs_fat32.c:1056-1066 | the two loops compute the padded upper-case name |
| `Dir83.FoundNew` | kernel/fs_fat32.c:210-280 | an entry written into the first free slot is found under its name |
| `Dir83.FoundSame` | kernel/fs_fat32.c:1707-1721 | an entry that keeps its name is found where it was |
| `Dir83.FoundOther` | kernel/fs_fat32.c:210-248 | every other entry is still found, unchanged |
| `Fat32Dir.DirFindEntry` | kernel/fs_fat32.c:210-248 | the loops compute the search they specify, with the sector and offset of the entry |
| `Fat32Dir.CreateDirEntry` | kernel/fs_fat32.c:1516-1537 | the entry goes into the first free slot, across clusters, and nothing else changes; -1 exactly without one |
| `Fat32Dir.WriteSingleCluster` | kernel/fs_fat32.c:1482-1514 | the cluster holds the first bytes of the data and ends its chain; no other cluster in use changes |
| `Fat32Dir.EnsureDirectory` | kernel/fs_fat32.c:1539-1591 | the directory of that name, made if there is none; every result exactly |
| `Fat32Dir.NewDirEmpty` | kernel/fs_fat32.c:1560-1583 | in a new directory no component is found and the third entry is free |
| `Fat32File.WriteLast` | kernel/fs_fat32.c:1693-1738 | the last round of a write: every result exactly; on success one entry has been written and names the data |
| `Fat32Path.ReadFilePath` | kernel/fs_fat32.c:1620-1659 | every error code exactly; otherwise the first bytes of the chain |
| `Fat32Laws.ReadsRight` | kernel/fs_fat32.c:1620-1659 | reading a file that a path leads to gives its first bytes |
| `Fat32Laws.ReadsLasting` | kernel/fs_fat32.c:221-225 | a path leads to a file only if none of its names counts as deleted |
| `Fat32Driver.WriteFilePath` | kernel/fs_fat32.c:1661-1742 | every result exactly, also when directories have to be made; on success the path leads to a file that holds as much of the data as one cluster does if and only if no name counts as deleted; whatever the result, only one entry of one directory and the old file have changed |
| `Fat32Driver.WriteThenRead` | kernel/fs_fat32.c:1620-1742 | what has been written is read back, as much as cluster and buffer take |
| `Fat32Driver.EnsureDirPath` | kernel/fs_fat32.c:1593-1618 | every result exactly; afterwards the path leads through directories; a path that did so before is left alone |
| `Fat32Driver.EnsureTwice` | kernel/fs_fat32.c:1593-1618 | a second call succeeds and changes nothing |
| `Fat32Others.OtherPathKept` | kernel/fs_fat32.c:1661-1742 | a file under another 8.3 path is reached as before and holds what it held |
| `Fat32Others.WriteBeside` | kernel/fs_fat32.c:1620-1742 | so it reads the same after the write, whatever its result |
| `IndexedRead.CacheClusterChain` | kernel/fs/fat32.s2.c:245-268 | the array holds the chain that the links name, for 12, 16 and 32 bit tables |
| `IndexedRead.ReadClusterChain` | kernel/fs/fat32.s2.c:270-289 | for any position and length, that slice of the concatenated clusters |
| `IndexedRead.ReadersAgree` | kernel/fs/fat32.s2.c:217-289 | on a FAT32 volume both drivers see the same chain and the same bytes |

## Left out

- Device tree versions other than 17, the realignment paths, the `can_assume` modes other than the default, and the alignment of addresses.
- Editor.SetProp: value lengths and names whose rounded sizes overflow a C `int` are excluded by preconditions, here and in the other edits.
- Inplace.SetPropInplacePartial: excludes exactly the stores that get past the wrapping check although they lie outside the value.
- Blanking.NopProperty: asks for a finished blob that the read-only functions accept.
- ReserveEditor.AddMemRsv: a reserve map that is not terminated has to start at least 168 bytes into the blob; on an earlier one the source inserts the entry into the header or in front of the buffer.
- ReserveEditor.DelMemRsv: asks for a non-negative index.
- Packing.Pack: asks for a reserve map that is terminated inside the blob.
- Packing.OpenInto: asks for a terminated reserve map, and does not say what `boot_cpuid_phys` becomes, because the source reads it after it may have been overwritten.
- Overlay.ApplyNode: base and overlay are assumed to be well formed.
- OverlayMerge.MergeOverlay: a target path has to be a terminated string that starts at the root; aliases are not followed.
- LocalFixups.UpdateNode: excludes fixups that store outside their own value, by the condition of `FixupStores.StrayIs`, and fixups that lead into their own node.
- `__fixups__`, conflicting phandles and symbols of overlays.
- PathPrinting.GetPath: asks for a rooted tree without slashes in its names and an offset inside it; on other trees the loop that removes names counts wrong.
- Aliases, string lists and the accessors of single header words.
- Writer.Property: asks that the strings and a new name are together no longer than the buffer, the exact condition of the source's guard; beyond it the source stores in front of the buffer.
- Reserves.NumMemRsv: `fdt_get_mem_rsv` is not modelled.
- Checker.CheckFull: buffers of 2 GB and more, and headers of other versions, are excluded.
- Bitmap.MarkBitmap: the bitmap is taken as located; `exfat_load_bitmap_info` is not modelled.
- ExPath.ReadFilePath: a path without components is excluded, because the source then reads a record that nobody has filled.
- ExDisk.FindInDir: asks that the search comes to no set that is longer than its buffer, the exact condition of `SetBuffer.CopiesFit`; so do the results about paths.
- ExFilePath.WriteFilePath: names whose set is longer than a cluster (`Fitting`) are excluded from what has to be made, because `exfat_create_entry` then writes behind the directory; what it does there is `ExMake.CreateEntry`.  Directories on the path share no clusters with each other, the bitmap or the old file, and the last one is tidy (no set runs into a free entry or another set).
- Fat32Driver.WriteFilePath: sectors of 512 bytes, which the source's buffers are made for; directories on the path share no clusters with each other or the old file.
- `exfat_ensure_dir_path` and the functions that list directories or work on the root directory only.
- FAT mirror copies, disk errors and the meaning of the exFAT checksum.
