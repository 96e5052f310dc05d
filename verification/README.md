# p-boot: a verified model

p-boot is a bootloader that finds its images in a small boot filesystem on eMMC or SD and hands a
device tree to Linux.  This project models the parts of it whose correctness is hard to see and
proves what they promise.

**Flattened device trees (libfdt).**  A blob is ten header words and a byte buffer.  Three layers
are related to each other: bytes with splices (`Bytes`, `Splicing`), the structure block as a
sequence of tokens that own their bytes (`Tokens`, `Scan`, `Walk`), and the tree of nodes,
properties and children it means (`Tree`, `Meaning`, `TreeWalk`, `Props`).  A blob is well-formed
(`Blob.Wf`) when its blocks are in order, its version is 17, its reservations are terminated and
its structure block is the encoding of one tree with properties before subnodes and names in the
strings block.  Every operation is a method on an object of `class Fdt`, whose ghost field `root`
is the tree with everything the tokens keep; `Blob.TreeUnique` shows that the bytes leave no choice
for it.  The contracts say what the operation does to the tree and to the bytes and when exactly it
fails, for every check mask: the build p-boot uses (`configure.php:459`, all checks off) behaves as
the checked one does, which `Builds` states outright for lookups, edits, reservations, paths and
packing.  There are two differences: a string that nothing refers to, which a failed write leaves in
the strings block of the unchecked build (`Rw.Unchanged`), and `fdt_open_into` (see below).

- `Edit`, `Rw`, `PropWrites`, `Cut`, `NodeEdits`, `AddNode`, `InPlace`: every writer of one node.
- `Merge`, `Overlay`, `OverlayTarget`, `OverlayMerge`, `Phandles`, `References`, `OverlayApply`:
  device tree overlays, from the merge of trees to `fdt_overlay_apply`.
- `MergeLaws`, `TargetLaws`, `PatchLaws`: what a merged tree holds node by node, which node a
  fragment is for, and what becomes of phandles and of the references to them.
- `Reserve`, `Initrd`, `Packing`: reservations, `fdt_initrd`, packing and opening into a buffer.
- `SwWriter`: the sequential writer, whose strings grow down towards the structure.
- `Paths`, `Regions`, `RegionLaws`: ancestors, paths, and the regions of chosen nodes.

**Division (`Div64`).**  The reciprocal multiplication of `div64.h`: a test at one point decides
whether a rounded-up multiplier is exact for all 64-bit dividends, and another form is used if not.

**Reading from the card (`Dma`, `MmcRead`, `ModeSelect`).**  A DMA engine is a function that runs
a descriptor chain, a card is its contents and a few registers, and any command may be lost,
refused, or carried out with its answer lost.  A ghost counter of such faults lets the contracts
say that nothing fails without one.

**The boot filesystem (`Bootfs`, `BootfsLoad`)** from the parsed configurations to bytes in
memory, and **the run-length code (`Rle`)** of the console font.

`dafny verify dfyconfig.toml` checks everything.

## Where the code does less than it seems to

- The run-length encoder looks at the byte after its input.  If the input ends in a run that this
  byte continues, the run loses its length modulo 127 (`Rle.RoundTrip`, `Rle.Lossless`, `Rle.Loss`).
- The room test of `fdt_add_string_` in the sequential writer wraps for a name that would not even
  fit the buffer without a structure; `SwWriter.NoRoomExact` gives the exact condition and
  `SwWriter.RoomMissed` such a name.  The writer then stores below the buffer: the methods that add
  names return `STRAY` there, which stands for the end of the model, not for a value of the code.
- The room test of `fdt_setprop_inplace_namelen_partial` is unsigned too, and a local fixup of an
  overlay chooses the index: `InPlace.TooLongExact` (right exactly below 2^32), `InPlace.TooLongMissed`,
  `References.StrayWord` and `References.NeverStray`.  `STRAY` marks these stores as well.
- `fdt_open_into` leaves the blocks in order exactly if the build has the basic checks or they were
  in order before (`Packing.OrderLeft`); p-boot's build has none (`Packing.OrderLost`).  It knows the
  size of the structure exactly if versions are checked or the version is at least 17
  (`Packing.SizeReadRight`, `Packing.SizeLost`).  Reordering a blob in place, it reads the boot CPU
  number after the old header is gone and gets a word from behind the old blob (`Packing.Reorder`).
- `mmc_read_data` rounds up to sectors in 32 bits; `MmcRead.SectorsExact` says exactly when the sum
  is right and `MmcRead.SectorsLost` gives a length that is lost.  `bootfs_load_image` accepts no such
  length (`BootfsLoad.LoadSectors`).
- The filesystem writer drops the files that no metadata block is left for, without an error: the
  first file of a name is found exactly if its number is below 51 times the free slots
  (`Bootfs.FileRoundTrip`), and 400 files beside 25 configurations are too many (`Bootfs.FilesLost`).
- An overlay node with an explicit phandle 0 gets the largest phandle of the base tree
  (`Phandles.NoClash`, both directions), which a node of the base has (`Phandles.Clash`).
- A node an overlay adds comes in front of its siblings, so a new `a@1` takes over the plain name `a`
  of an old node; `MergeLaws.NameLeadsOn` says exactly when a name leads on to the same node.
- The preference list of eMMC modes puts high speed (26 MHz) before legacy mode, whatever speed the
  card gives for that: it goes from fast to slow exactly up to 26 MHz (`ModeSelect.MmcTooFast`).
- `fdt_find_regions` adds the size of the strings block to the last region, which holds the strings
  exactly if they follow the structure block directly (`Regions.StringsHeld`).
- `fdt_path_offset` undoes `fdt_get_path` only if no earlier sibling on the way is accepted for a
  name; a plain name also accepts a sibling with a unit address (`Paths.PathRoundTrip`, both
  directions; `Paths.Shadowed`).

## Model

| member | source | states |
|---|---|---|
| Bytes.MemMove | src/lib.c:55-70 | for any overlap of the two ranges the buffer afterwards is the old one with the source bytes, as they were before the call, at the destination, and nothing else changed |
| Bytes.MemCpy | src/lib.c:27-36 | the same for ranges whose destination starts below the source or which are disjoint |
| Bytes.MemZero | src/lib.c:39-46 | exactly the n bytes become 0 |
| Tokens.EncUnique | src/uboot/scripts/dtc/libfdt/fdt.c:150-203 | the bytes of a structure block determine its tokens: the encoding of tokens is a prefix code |
| Blob.TreeUnique | src/uboot/scripts/dtc/libfdt/fdt.c:150-203 | a well-formed blob holds one tree only, so the ghost tree of a blob is a reading of its bytes |
| Scan.OffsetPtrAt | src/uboot/scripts/dtc/libfdt/fdt.c:132-148 | for a range below 2^31 bytes no 32-bit sum wraps: NULL exactly if the basic checks find the range outside the blob, or it leaves a structure block whose size is known |
| Scan.OffsetPtr | src/uboot/scripts/dtc/libfdt/fdt.c:132-148 | for a version 17 blob: NULL exactly if the range leaves the structure block, whichever checks are compiled in |
| Scan.SkipName | src/uboot/scripts/dtc/libfdt/fdt.c:166-173 | the byte loop over a name stops just past its NUL |
| Scan.NextTagAt | src/uboot/scripts/dtc/libfdt/fdt.c:150-203 | on a blob anywhere in memory, of version 16 or later: at the offset of token i it returns the tag of token i and the offset of token i + 1, under any check mask; so scans make progress and end at FDT_END |
| Scan.NextTag | src/uboot/scripts/dtc/libfdt/fdt.c:150-203 | the same for the blob of an object |
| Walk.RoProbeOf | src/uboot/scripts/dtc/libfdt/fdt.c:18-43 | BADMAGIC, BADVERSION and BADSTATE each exactly for its headers, TRUNCATED for any other of 2^31 - 1 bytes and more, else the total size |
| Walk.CheckNodeOffset | src/uboot/scripts/dtc/libfdt/fdt.c:205-212 | the offset of a BEGIN_NODE gives the offset of the token after it |
| Walk.NextNode | src/uboot/scripts/dtc/libfdt/fdt.c:223-261 | stops at the next BEGIN_NODE with its depth, past the END_NODE that takes the depth below 0, or at FDT_END |
| Walk.FirstSubnode | src/uboot/scripts/dtc/libfdt/fdt.c:263-272 | the first node directly below, or NOTFOUND |
| Walk.NextSubnode | src/uboot/scripts/dtc/libfdt/fdt.c:274-289 | the next node at the same level, skipping the whole subtree between, or NOTFOUND |
| Walk.NodeEndOffset | src/uboot/scripts/dtc/libfdt/fdt_wip.c:73-81 | the offset just past the END_NODE that closes the node |
| Walk.MemCmp | src/lib.c:48-53 | compared with a C string it is 0 exactly if the string starts with the n bytes, though it stops at the first difference and so needs no length check |
| Walk.StrLen | src/lib.c:72-77 | the length of the string |
| Walk.GetName | src/uboot/lib/libfdt/fdt_ro.c:302-339 | the place and length of the node name stored in the tag |
| Walk.NodenameEq | src/uboot/lib/libfdt/fdt_ro.c:17-36 | true exactly under the unit-address rule: the whole name, or the name up to its @ if the wanted name has none; with or without the length check |
| Walk.NameEqIs | src/uboot/lib/libfdt/fdt_ro.c:17-36 | a node answers to exactly two names: its whole name, and the part of it before its first @ |
| Walk.AnswersTwice | src/uboot/lib/libfdt/fdt_ro.c:17-36 | of two names one node answers to, one is a name for the other; so siblings that do not answer to each other never select the same node |
| Walk.SubnodeOffsetNamelen | src/uboot/lib/libfdt/fdt_ro.c:227-244 | the first child the unit-address rule accepts, in token terms |
| TreeWalk.FindKidAt | src/uboot/lib/libfdt/fdt_ro.c:227-244 | what the token scan of a node finds is the first wanted child among the items of that node, never a deeper node |
| TreeWalk.NextKidAt | src/uboot/scripts/dtc/libfdt/fdt.c:274-289 | going on from child k finds the next child of the same node |
| TreeWalk.EndOfAt | src/uboot/scripts/dtc/libfdt/fdt_wip.c:73-81 | the scan for the end of a node ends where the subtree of that node ends |
| Props.MemChr | src/lib.c:79-85 | the first NUL of the range, or none |
| Props.NextProp | src/uboot/lib/libfdt/fdt_ro.c:203-225 | the next property before any node starts or ends, NOTFOUND or BADSTRUCTURE otherwise |
| Props.GetString | src/uboot/lib/libfdt/fdt_ro.c:38-100 | place and length of the string at an offset of the strings block, found with or without the checks |
| Props.StringEq | src/uboot/lib/libfdt/fdt_ro.c:107-114 | true exactly if the stored string is the wanted one |
| Props.FirstPropertyOffset | src/uboot/lib/libfdt/fdt_ro.c:341-349 | the first property of the node, looking no further than a subnode |
| Props.NextPropertyOffset | src/uboot/lib/libfdt/fdt_ro.c:351-357 | the next property of the same node |
| Props.GetProperty | src/uboot/lib/libfdt/fdt_ro.c:396-424 | offset and length of the first property of that name in the node, NOTFOUND if it has none |
| Splicing.Misordered | src/uboot/scripts/dtc/libfdt/fdt_rw.c:13-25 | true exactly if the build has the basic checks and the blocks do not follow each other in order |
| Splicing.RwProbe | src/uboot/scripts/dtc/libfdt/fdt_rw.c:27-42 | 0 without the checks; with them the error of the read-only probe, BADVERSION exactly below version 17, BADLAYOUT exactly for blocks out of order, else 0 |
| Splicing.Splice | src/uboot/scripts/dtc/libfdt/fdt_rw.c:56-69 | BADOFFSET and NOSPACE exactly as the end of the data demands; otherwise only the data past the splice point move |
| Splicing.SpliceStruct | src/uboot/scripts/dtc/libfdt/fdt_rw.c:84-96 | the bytes before and after the splice point stay what they are, the strings move along with their offset, reservations stay |
| Splicing.FindString | src/uboot/scripts/dtc/libfdt/fdt.c:291-301 | the first place of the string with its NUL in the table, also as the end of a longer one, and -1 exactly if there is none |
| Splicing.FindAddString | src/uboot/scripts/dtc/libfdt/fdt_rw.c:106-154 | the offset of the string in the strings block, old strings keeping their offsets; NOSPACE exactly if it is new and does not fit, then nothing has changed |
| Edit.SpliceTorn | src/uboot/scripts/dtc/libfdt/fdt_rw.c:84-96 | splicing a well-formed blob opens a hole of the new length and keeps every byte before and after it, reservations and strings |
| Edit.TornClose | src/uboot/scripts/dtc/libfdt/fdt_rw.c:84-96 | a hole filled with encoded items is a well-formed blob whose tree is the old one with exactly those items replaced |
| Rw.Rollback | src/uboot/scripts/dtc/libfdt/fdt_rw.c:99-104 | taking the last string back leaves tree, reservations and the other strings as they were |
| Rw.AddProperty | src/uboot/scripts/dtc/libfdt/fdt_rw.c:203-234 | the new property is the first item of its node; NOSPACE exactly if name, record and padding do not fit, and then the tree is unchanged and a string that was added is taken back |
| Rw.ResizeProperty | src/uboot/scripts/dtc/libfdt/fdt_rw.c:185-201 | the property keeps its place, its name and as much of its value as fits; exact error conditions |
| Rw.SetPropPlaceholder | src/uboot/scripts/dtc/libfdt/fdt_rw.c:259-275 | the property is replaced or added first with a value of the length, at the returned index; NOSPACE exactly if the growth does not fit |
| Effects.EditedMeans | src/uboot/scripts/dtc/libfdt/fdt_overlay.c:556-601 | an edit inside a node never moves the offset of that node, and changes the meaning of the tree at that node only |
| PropWrites.SetProp | src/uboot/scripts/dtc/libfdt/fdt_rw.c:277-290 | success means the tree with that one property set (in place, or first in its node), every other node, name and value as before, the blob well-formed; NOSPACE exactly if it does not fit, and then the meaning is unchanged |
| PropWrites.AppendProp | src/uboot/scripts/dtc/libfdt/fdt_rw.c:292-317 | the same with the value appended to the old one |
| Merge.SetLookup | src/uboot/scripts/dtc/libfdt/fdt_rw.c:277-290 | in the tree fdt_setprop leaves, looking up that name gives the new value and any other name what it gave before |
| Merge.SetPlaces | src/uboot/scripts/dtc/libfdt/fdt_rw.c:277-290 | a new property comes first, an old one keeps its place, and so do all others |
| Merge.AppendLookup | src/uboot/scripts/dtc/libfdt/fdt_rw.c:292-317 | after fdt_appendprop the name has its old value with the new bytes behind it, every other name what it had |
| Cut.NopRegion | src/uboot/scripts/dtc/libfdt/fdt_wip.c:51-57 | only the words of the region become NOP tags |
| Cut.DelProp | src/uboot/scripts/dtc/libfdt/fdt_rw.c:319-332 | the tree without that property; NOTFOUND exactly if the node has none, then nothing has changed |
| Merge.DelPlaces | src/uboot/scripts/dtc/libfdt/fdt_rw.c:319-332 | only the first property of the name is gone, all others keep their order |
| Merge.DelLookup | src/uboot/scripts/dtc/libfdt/fdt_rw.c:319-332 | every other name keeps its value, and the name has none any more unless the node had a second property of it |
| NodeEdits.NopProperty | src/uboot/scripts/dtc/libfdt/fdt_wip.c:59-71 | the meaning fdt_delprop leaves, but only bytes of the property change and every other token keeps its offset |
| NodeEdits.DelNode | src/uboot/scripts/dtc/libfdt/fdt_rw.c:380-392 | exactly that subtree is gone, byte by byte the data after it have moved up |
| NodeEdits.NopNode | src/uboot/scripts/dtc/libfdt/fdt_wip.c:83-94 | the meaning fdt_del_node leaves, but only bytes of the subtree change and every other token keeps its offset |
| NodeEdits.NopKeepsOffsets | src/uboot/scripts/dtc/libfdt/fdt_wip.c:51-94 | items overwritten with as many bytes of NOP tags leave every token outside them at its byte offset |
| InPlace.TooLongExact | src/uboot/scripts/dtc/libfdt/fdt_wip.c:26-27 | the room test, done in unsigned arithmetic, is right for all values exactly if index and length together stay below 2^32 |
| InPlace.TooLongMissed | src/uboot/scripts/dtc/libfdt/fdt_wip.c:26-27 | a word at index 2^32 - 4 passes the test for a value of any length |
| InPlace.SetPropInPlacePartial | src/uboot/scripts/dtc/libfdt/fdt_wip.c:13-31 | part of the value is overwritten, the tree changes at that value only, and the new tree has the shape of the old one; NOTFOUND exactly without the property, NOSPACE exactly if the room test says so, STRAY exactly if it passes for a store that leaves the value |
| InPlace.SetPropInPlace | src/uboot/scripts/dtc/libfdt/fdt_wip.c:33-49 | the same for a whole value, which must have the old length |
| InPlace.ShapeAt | src/uboot/scripts/dtc/libfdt/fdt_wip.c:13-49 | in a tree of the same shape every node is at the same byte offset |
| AddNode.SubnodeOffset | src/uboot/lib/libfdt/fdt_ro.c:246-250 | the first child of the node the unit-address rule accepts, as a node of the tree |
| AddNode.AfterProps | src/uboot/scripts/dtc/libfdt/fdt_rw.c:352-357 | the scan over properties and NOPs ends at the first child, or at the end of a node without children |
| AddNode.AddSubnode | src/uboot/scripts/dtc/libfdt/fdt_rw.c:334-378 | EXISTS exactly if some child matches under the unit-address rule, NOSPACE exactly if the node does not fit; otherwise one empty node is the first child and all other bytes have only moved |
| AddNode.AddThenDelete | src/uboot/scripts/dtc/libfdt/fdt_rw.c:334-392 | deleting at the offset adding returned restores the header and every data byte |
| AddNode.FindOrAddSubnode | src/uboot/common/fdt_support.c:111-124 | the child the name selects, or a new empty first child |
| Builds.SameLookups | src/uboot/scripts/dtc/libfdt/libfdt_internal.h:58-135 | two builds with any two check masks return the same from the lookups of children, properties, phandles and paths on a well-formed blob |
| Builds.SameSetProp | src/uboot/scripts/dtc/libfdt/libfdt_internal.h:58-135 | they return the same and leave the same tree from fdt_setprop, also when it fails |
| Builds.SameAppendProp | src/uboot/scripts/dtc/libfdt/libfdt_internal.h:58-135 | likewise fdt_appendprop |
| Builds.SameDelProp | src/uboot/scripts/dtc/libfdt/libfdt_internal.h:58-135 | likewise fdt_delprop |
| Builds.SameAddSubnode | src/uboot/scripts/dtc/libfdt/libfdt_internal.h:58-135 | likewise fdt_add_subnode |
| Builds.SameDelNode | src/uboot/scripts/dtc/libfdt/libfdt_internal.h:58-135 | likewise fdt_del_node |
| Builds.SameNopProperty | src/uboot/scripts/dtc/libfdt/libfdt_internal.h:58-135 | likewise fdt_nop_property |
| Builds.SameNopNode | src/uboot/scripts/dtc/libfdt/libfdt_internal.h:58-135 | likewise fdt_nop_node |
| Builds.SameSetPropInPlace | src/uboot/scripts/dtc/libfdt/libfdt_internal.h:58-135 | likewise fdt_setprop_inplace |
| Builds.SameReservations | src/uboot/scripts/dtc/libfdt/libfdt_internal.h:58-135 | likewise adding and deleting reservations, with equal lists afterwards |
| Builds.SameReserved | src/uboot/scripts/dtc/libfdt/libfdt_internal.h:58-135 | they return the same number of reservations and the same entries |
| Builds.SameAncestors | src/uboot/scripts/dtc/libfdt/libfdt_internal.h:58-135 | they return the same depth, parent and ancestor of a node |
| Builds.SameGetPath | src/uboot/scripts/dtc/libfdt/libfdt_internal.h:58-135 | they return the same from fdt_get_path and write the same path |
| Builds.SamePack | src/uboot/scripts/dtc/libfdt/libfdt_internal.h:58-135 | fdt_pack leaves the same header, the same reservations and the same bytes behind the header |
| Merge.MergedProps | src/uboot/scripts/dtc/libfdt/fdt_overlay.c:562-578 | after the merge a property has the value the overlay node gives it, and the value of the base if it gives none |
| Merge.MergedKid | src/uboot/scripts/dtc/libfdt/fdt_overlay.c:580-598 | an overlay child changes one child of the base, or adds one in front; all others stay |
| Merge.KidStays | src/uboot/scripts/dtc/libfdt/fdt_overlay.c:580-598 | a child of the base that no overlay child selects is in the result as it was |
| Merge.KidLands | src/uboot/scripts/dtc/libfdt/fdt_overlay.c:580-598 | every overlay child whose receiver no other overlay child selects ends up merged into it |
| MergeLaws.KidFound | src/uboot/scripts/dtc/libfdt/fdt_overlay.c:580-598 | of overlay children that do not answer to each other, each is found in the result by its name, merged once into the child that name selected in the base, or into a new one in front |
| MergeLaws.OverlayNode | src/uboot/scripts/dtc/libfdt/fdt_overlay.c:556-601 | every node of the overlay, at any depth, on a way among siblings that do not answer to each other: its names lead from the merged tree to a node that has each value the overlay node gives, and otherwise the value these names led to in the base |
| MergeLaws.MergeExtends | src/uboot/scripts/dtc/libfdt/fdt_overlay.c:556-601 | no node of the base is lost, renamed or reordered: every list of children ends with the old one |
| MergeLaws.BaseNode | src/uboot/scripts/dtc/libfdt/fdt_overlay.c:556-601 | a base node that no names of the overlay lead to has the same place, counted from the end, with the same name and the same properties |
| MergeLaws.NoOtherNode | src/uboot/scripts/dtc/libfdt/fdt_overlay.c:556-601 | the merged tree has no further nodes: each has the place of a base node, or is the one the names of an overlay node lead to |
| MergeLaws.NameLeadsOn | src/uboot/scripts/dtc/libfdt/fdt_overlay.c:580-598 | a name still selects the base child it selected before exactly if no added child answers to it |
| Overlay.GetPropertyByOffset | src/uboot/lib/libfdt/fdt_ro.c:359-378 | index and value length of the property at the offset |
| Overlay.GetPropByOffset | src/uboot/lib/libfdt/fdt_ro.c:471-502 | index of the value, its length and the name of the property at the offset |
| Overlay.ApplyProps | src/uboot/scripts/dtc/libfdt/fdt_overlay.c:562-578 | the target has the properties of the merge; it fails only if the base has less room than the properties need |
| Overlay.TargetKid | src/uboot/scripts/dtc/libfdt/fdt_overlay.c:581-593 | the child the name selects, made first if there is none, whatever fdt_add_subnode said |
| Overlay.ApplyKids | src/uboot/scripts/dtc/libfdt/fdt_overlay.c:580-598 | the children of the target are those of the recursive merge |
| Overlay.ApplyNode | src/uboot/scripts/dtc/libfdt/fdt_overlay.c:556-601 | refines the recursive tree merge: the target means the merge of the overlay node into it, the rest of the base and the offset of the target are as before, and NOSPACE is possible only if the base has less room than the overlay node needs |
| OverlayTarget.GetProp | src/uboot/lib/libfdt/fdt_ro.c:453-508 | index and length of the value the meaning of the node has for the name |
| OverlayTarget.GetPhandle | src/uboot/lib/libfdt/fdt_ro.c:510-525 | the phandle of the node: phandle if it is a word, else linux,phandle if that is one, else 0 |
| OverlayTarget.NodeOffsetByPhandle | src/uboot/lib/libfdt/fdt_ro.c:682-705 | the first node of the tree, parents before children, with the phandle; errors exactly for 0, -1 and a missing one |
| OverlayTarget.FollowMeans | src/uboot/lib/libfdt/fdt_ro.c:252-295 | following a path through the items of a blob and through its meaning leads to the same node |
| OverlayTarget.TargetPhandle | src/uboot/scripts/dtc/libfdt/fdt_overlay.c:28-41 | 0 without a target property, -1 for a malformed one |
| OverlayTarget.GetTarget | src/uboot/scripts/dtc/libfdt/fdt_overlay.c:58-100 | the node of the base the fragment names by phandle, else by path; each error exactly in its case |
| TargetLaws.PhandleIs | src/uboot/lib/libfdt/fdt_ro.c:510-525 | a phandle property that is a word wins over linux,phandle, which counts only if it is a word, and 0 stands for neither |
| TargetLaws.PhandleFirst | src/uboot/lib/libfdt/fdt_ro.c:682-705 | the node found has the phandle and no node before it in document order has; none is found exactly if no node has it |
| TargetLaws.FollowLed | src/uboot/lib/libfdt/fdt_ro.c:252-295 | a path leads to a node exactly if on every step the node is the first of its siblings that answers to the part |
| TargetLaws.TargetIs | src/uboot/scripts/dtc/libfdt/fdt_overlay.c:58-100 | the target of a fragment: a malformed phandle is an error, a phandle other than 0 names the first node that has it, otherwise the path decides, and without a path the overlay is bad |
| OverlayMerge.FragmentElsewhere | src/uboot/scripts/dtc/libfdt/fdt_overlay.c:618-648 | merging a fragment changes name and properties of no node outside the subtree of its target |
| MergeLaws.FragmentNode | src/uboot/scripts/dtc/libfdt/fdt_overlay.c:618-648 | one fragment: nothing without __overlay__, the error of its target if it has none; otherwise the target is where it was and every node of __overlay__ is found below it with the values of the overlay, or else of the base |
| OverlayMerge.OverlayNeed | src/uboot/scripts/dtc/libfdt/fdt_overlay.c:618-648 | the room a merge may need is at most the size of the structure of the overlay and, for each of its tokens, that of its strings; with so much room it does not fail for space |
| OverlayMerge.ErrorStays | src/uboot/scripts/dtc/libfdt/fdt_overlay.c:618-648 | the first fragment that fails stops the merge |
| OverlayMerge.MergeOverlay | src/uboot/scripts/dtc/libfdt/fdt_overlay.c:618-648 | the base means the fold of all fragments in order, each seeing what those before it did, or the error of the first that fails; NOSPACE only if there is less room than all fragments need |
| Phandles.FindMaxPhandle | src/uboot/lib/libfdt/fdt_ro.c:116-142 | the largest phandle of all nodes of the tree |
| Phandles.MaxIsMax | src/uboot/lib/libfdt/fdt_ro.c:116-142 | no node of the tree has a larger one |
| Phandles.MaxAttained | src/uboot/lib/libfdt/fdt_ro.c:116-142 | and a node of the tree has it, unless it is 0 |
| Phandles.PhandleAddOffset | src/uboot/scripts/dtc/libfdt/fdt_overlay.c:116-139 | the word is raised by delta in place; BADPHANDLE and NOPHANDLES exactly for a malformed value, a wrap or the result -1 |
| Phandles.AdjustNode | src/uboot/scripts/dtc/libfdt/fdt_overlay.c:156-177 | the whole subtree is shifted, or the first error in document order is returned; every node keeps its offset |
| Phandles.AdjustLocalPhandles | src/uboot/scripts/dtc/libfdt/fdt_overlay.c:193-199 | the meaning of the overlay is the shifted tree |
| Phandles.ShiftedProps | src/uboot/scripts/dtc/libfdt/fdt_overlay.c:156-177 | a node that had a phandle has it raised by delta, one without has none, and all other properties of the node are unchanged |
| Phandles.ShiftedAt | src/uboot/scripts/dtc/libfdt/fdt_overlay.c:156-177 | the shifted tree has the same nodes with the same names |
| PatchLaws.ShiftPropFails | src/uboot/scripts/dtc/libfdt/fdt_overlay.c:116-139 | a phandle that cannot be raised is BADPHANDLE if it is no word, NOPHANDLES if the sum reaches 2^32 - 1 |
| PatchLaws.ShiftFine | src/uboot/scripts/dtc/libfdt/fdt_overlay.c:156-177 | the shift of a tree succeeds exactly if every phandle of every node is a word and stays below 2^32 - 1 |
| Phandles.NoClash | src/uboot/scripts/dtc/libfdt/fdt_overlay.c:829-852 | shifted by the largest phandle of the base, an overlay node has a phandle above all of the base exactly if its phandle was not 0 |
| Phandles.Clash | src/uboot/scripts/dtc/libfdt/fdt_overlay.c:116-145 | an overlay node with phandle 0 ends up with the phandle of some node of the base, for every base that has phandles and none of 2^32 - 1 |
| References.StrayWord | src/uboot/scripts/dtc/libfdt/fdt_overlay.c:253-281 | a fixup offset of 2^32 - 4 goes past the room test for a value of any length |
| References.NeverStray | src/uboot/scripts/dtc/libfdt/fdt_overlay.c:220-305 | fixups whose offsets leave room for a word below 2^32 never do: any offset that does not fit is refused |
| References.UpdateWord | src/uboot/scripts/dtc/libfdt/fdt_overlay.c:253-281 | the word at a fixup offset is raised in 32 bits; if it does not lie in the value, BADOVERLAY or STRAY as the room test decides; the fixups node stays as it is |
| References.UpdateProps | src/uboot/scripts/dtc/libfdt/fdt_overlay.c:229-282 | all properties the fixups node names are patched, or the error of the first that does not fit |
| References.UpdateKids | src/uboot/scripts/dtc/libfdt/fdt_overlay.c:284-302 | every child of the fixups node patches the child of the tree node its name selects, or the error of the first that selects none or does not fit |
| References.UpdateNode | src/uboot/scripts/dtc/libfdt/fdt_overlay.c:220-305 | the tree node is patched by the fixups node, recursively, and the child of the root that holds the fixups is untouched |
| References.RefFollows | src/uboot/scripts/dtc/libfdt/fdt_overlay.c:253-281 | if the offsets of a fixup do not overlap, each listed word is raised exactly once, so that a reference follows the phandle it refers to |
| References.WordKept | src/uboot/scripts/dtc/libfdt/fdt_overlay.c:253-281 | a word no listed offset touches keeps its value |
| PatchLaws.PatchFine | src/uboot/scripts/dtc/libfdt/fdt_overlay.c:220-305 | following the references succeeds exactly if every fixups node is for a node of the overlay and each of its lists is of whole words that lie in the property it is for; the tree keeps its nodes, their names and the lengths of all values |
| PatchLaws.FixupsNode | src/uboot/scripts/dtc/libfdt/fdt_overlay.c:220-305 | the names of a fixups node, at any depth, on a way among siblings that do not answer to each other, lead to the node whose properties it patches |
| PatchLaws.NodeAlone | src/uboot/scripts/dtc/libfdt/fdt_overlay.c:220-305 | a node the names of no fixups node lead to keeps its properties |
| PatchLaws.PropPatched | src/uboot/scripts/dtc/libfdt/fdt_overlay.c:229-282 | among lists with distinct names each patches the property of its name, once |
| OverlayApply.UpdateLocalReferences | src/uboot/scripts/dtc/libfdt/fdt_overlay.c:324-342 | without local fixups nothing changes; with them the overlay is patched as a whole |
| PatchLaws.AdjustedNode | src/uboot/scripts/dtc/libfdt/fdt_overlay.c:829-852 | the adjusted overlay has the nodes of the overlay with their names, and a node that no local fixups lead to has its properties with the phandles raised by the largest phandle of the base |
| PatchLaws.ReferenceRaised | src/uboot/scripts/dtc/libfdt/fdt_overlay.c:829-852 | every word the local fixups list, in lists with distinct names and offsets that do not overlap, is raised by that same number, so a reference still names the node it named |
| OverlayApply.Apply | src/uboot/scripts/dtc/libfdt/fdt_overlay.c:829-881 | on success the base means the merge into it of the overlay with phandles and references raised past the largest phandle of the base; every error exactly in its case, NOSPACE only if room is short; the overlay, and on an error the base, are spoilt |
| Reserve.NumMemRsv | src/uboot/lib/libfdt/fdt_ro.c:191-201 | the number of entries before the terminator |
| Reserve.RsvUnique | src/uboot/lib/libfdt/fdt_ro.c:191-201 | the bytes of a terminated list determine its entries |
| Reserve.GetMemRsv | src/uboot/lib/libfdt/fdt_ro.c:177-189 | entry n, the terminator included |
| Reserve.SpliceMemRsv | src/uboot/scripts/dtc/libfdt/fdt_rw.c:71-82 | the list is open for the new entries, structure and strings have moved with their offsets; exact NOSPACE |
| Reserve.AddMemRsv | src/uboot/scripts/dtc/libfdt/fdt_rw.c:156-171 | the entry is appended, tree and strings stay; exact NOSPACE, then nothing has changed |
| Reserve.DelMemRsv | src/uboot/scripts/dtc/libfdt/fdt_rw.c:173-183 | entry n is removed, the others keep their order; NOTFOUND exactly past the end |
| Reserve.InitrdReserve | src/uboot/common/fdt_support.c:151-169 | the first reservation at the address is dropped and the new one is last; entries before the dropped one are where they were, those after it one place further on; once one was dropped the new one always fits |
| Reserve.ShrinkToMinimum | src/uboot/common/fdt_support.c:389-435 | the blob ends on the first page boundary past its data, five entries and the extra size; tree and other reservations stay, in order; the reservation of the blob itself, if it had one, is last with the new size and always fits |
| Initrd.GetAddressCells | src/uboot/scripts/dtc/libfdt/fdt_addresses.c:34-44 | 2 by default, the value if it is 1 to 4, BADNCELLS otherwise |
| Initrd.CellsAre | src/uboot/scripts/dtc/libfdt/fdt_addresses.c:34-44 | these cases spelled out on the properties of the node |
| Initrd.InitrdMeans | src/uboot/common/fdt_support.c:171-190 | merging the small overlay gives the child chosen selects two values that decode to the two addresses: 8 bytes wide exactly if the root has no address cells or the word 2, otherwise the low 32 bits; no other value of any child is different |
| Initrd.FdtInitrd | src/uboot/common/fdt_support.c:135-193 | nothing for an empty image; otherwise the child chosen selects, made if need be, stores both addresses, 8 bytes wide exactly if the root has no address cells or 2 of them, and keeps its other values; the first reservation at the address is gone, the others keep their order and the new one is last; NOSPACE only without 108 bytes to spare, and then the tree has the chosen node or not while the reservations are the old ones, or they are the new ones and none or one of the addresses is set |
| Packing.PackBlocks | src/uboot/scripts/dtc/libfdt/fdt_rw.c:394-414 | the three blocks are moved one after the other, in this order, and the header says where |
| Packing.Packed | src/uboot/scripts/dtc/libfdt/fdt_rw.c:394-414 | in place from ordered blocks, or into space apart from any order, the moves put every block where the header says |
| Packing.Pack | src/uboot/scripts/dtc/libfdt/fdt_rw.c:480-492 | tree, reservations and strings stay and the total size is exactly 40 + reservations + structure + strings |
| Packing.PackedIs | src/uboot/scripts/dtc/libfdt/fdt_rw.c:480-492 | a packed blob is header, reservations, structure and strings with nothing between |
| Packing.PackIdempotent | src/uboot/scripts/dtc/libfdt/fdt_rw.c:480-492 | packing again changes neither header nor contents |
| Packing.StructSize | src/uboot/scripts/dtc/libfdt/fdt_rw.c:431-438 | the loop over the tags of a version 16 blob ends at the size of its structure block; otherwise the size is the word of the header |
| Packing.SizeReadRight | src/uboot/scripts/dtc/libfdt/fdt_rw.c:431-438 | that size is right, whatever the word is, exactly if versions are checked or the version is at least 17 |
| Packing.SizeLost | src/uboot/scripts/dtc/libfdt/fdt_rw.c:431-438 | a version 16 blob whose structure gets size 0 in the build without checks, so that the header left holds the tree nowhere |
| Packing.OrderLeft | src/uboot/scripts/dtc/libfdt/fdt_rw.c:13-25 | the header left by fdt_open_into has its blocks in order exactly if the build has the basic checks or they were in order before |
| Packing.OrderLost | src/uboot/scripts/dtc/libfdt/fdt_rw.c:13-25 | a blob whose blocks stay out of order in the build without checks |
| Packing.Reorder | src/uboot/scripts/dtc/libfdt/fdt_rw.c:452-477 | for any overlap of blob and buffer, if the size is right, the packed blob, a well-formed one, is in the buffer; whatever the size, errors and header are as stated, nothing outside the buffer changes, the boot CPU number is kept if the new blob does not cover its old place, and in place it is a word from behind the old blob |
| Packing.Relabel | src/uboot/scripts/dtc/libfdt/fdt_rw.c:440-450 | a blob that is not reordered is copied as it is, its version, sizes and total size set |
| Packing.OpenInto | src/uboot/scripts/dtc/libfdt/fdt_rw.c:416-478 | from version 16 or later, in any order, for any overlap of blob and buffer and any check mask: NOSPACE exactly as the code decides, then nothing has changed; otherwise, if the size it read is right, tree, reservations and strings are in the buffer, in order exactly if the build has the basic checks or they were in order before, and then it is a well-formed blob; nothing outside the buffer changes; header and boot CPU number as stated |
| Packing.OpenSucceeds | src/uboot/scripts/dtc/libfdt/fdt_rw.c:440-464 | it succeeds exactly if the buffer has room for the old blob when that is only copied, and otherwise for the packed one, behind the old blob too if the packed one would overlap it; what it returns otherwise is NOSPACE or STRAY |
| SwWriter.NoRoomExact | src/uboot/scripts/dtc/libfdt/fdt_sw.c:249-264 | the room test of fdt_add_string_, done in unsigned arithmetic, is right exactly if the strings with the new name would fit the buffer at all |
| SwWriter.RoomMissed | src/uboot/scripts/dtc/libfdt/fdt_sw.c:249-264 | a name of 101 bytes passes the test above 100 bytes of strings in a buffer of 200 |
| SwWriter.BuildNode | src/uboot/scripts/dtc/libfdt/fdt_sw.c:218-334 | the tokens of properly nested calls are those of one well-formed tree, and it means what the calls described |
| SwWriter.Writer.CreateWithFlags | src/uboot/scripts/dtc/libfdt/fdt_sw.c:112-144 | an all-zero buffer with no reservations, or the error for a buffer too small or an unknown flag |
| SwWriter.Writer.AddReservemapEntry | src/uboot/scripts/dtc/libfdt/fdt_sw.c:187-205 | the entry is appended, or NOSPACE exactly if it does not fit |
| SwWriter.Writer.FinishReservemap | src/uboot/scripts/dtc/libfdt/fdt_sw.c:207-216 | the list is terminated and an empty run of calls begins |
| SwWriter.Writer.GrabSpace | src/uboot/scripts/dtc/libfdt/fdt_sw.c:97-110 | NULL exactly if structure and strings would meet |
| SwWriter.Writer.Begin | src/uboot/scripts/dtc/libfdt/fdt_sw.c:218-233 | one more call is recorded, or NOSPACE exactly if it does not fit |
| SwWriter.Writer.End | src/uboot/scripts/dtc/libfdt/fdt_sw.c:235-247 | likewise |
| SwWriter.Writer.AddString | src/uboot/scripts/dtc/libfdt/fdt_sw.c:249-264 | the name is below the strings, at the returned negative distance from their end, and every earlier call is still recorded; without room 0, or STRAY exactly if strings and name do not fit the buffer |
| SwWriter.Writer.FindAddName | src/uboot/scripts/dtc/libfdt/fdt_sw.c:275-290 | an old name is shared, a new one is added; without room the same two results |
| SwWriter.Writer.PropertyPlaceholder | src/uboot/scripts/dtc/libfdt/fdt_sw.c:292-322 | a property whose value is what the buffer holds at the returned index; NOSPACE, with a name that was added taken back, and STRAY each exactly in its case |
| SwWriter.Writer.Property | src/uboot/scripts/dtc/libfdt/fdt_sw.c:324-334 | the call with its value is recorded; NOSPACE and STRAY each exactly in its case |
| SwWriter.Writer.Rebase | src/uboot/scripts/dtc/libfdt/fdt_sw.c:358-371 | every negative name offset becomes the offset of the same name from the start of the strings, no token moves |
| SwWriter.Writer.Finish | src/uboot/scripts/dtc/libfdt/fdt_sw.c:336-383 | if the calls made describe a tree, the buffer is a well-formed blob with exactly that tree and the reservations added; exact NOSPACE |
| SwWriter.Resize | src/uboot/scripts/dtc/libfdt/fdt_sw.c:151-185 | for any overlap head and tail arrive at the two ends of the new buffer; exact NOSPACE |
| SwWriter.CarriedRun | src/uboot/scripts/dtc/libfdt/fdt_sw.c:151-185 | a run of calls carried over to another buffer is the same run |
| Paths.StackAt | src/uboot/scripts/dtc/libfdt/fdt.c:223-261 | in the preorder scan the nodes still open before node n are exactly the ancestors of n |
| Paths.SupernodeAtDepth | src/uboot/lib/libfdt/fdt_ro.c:596-632 | the ancestor at the depth and the depth of the node, NOTFOUND exactly for a depth below the node |
| Paths.NodeDepth | src/uboot/lib/libfdt/fdt_ro.c:634-643 | the length of the path from the root |
| Paths.ParentOffset | src/uboot/lib/libfdt/fdt_ro.c:645-653 | the parent, NOTFOUND exactly for the root |
| Paths.GetPath | src/uboot/lib/libfdt/fdt_ro.c:544-594 | success exactly if the buffer has two bytes and path and NUL fit, and then the buffer holds them; NOSPACE otherwise |
| Paths.PathIs | src/uboot/lib/libfdt/fdt_ro.c:544-594 | the path is a slash for the root, else each name on the way after a slash |
| Paths.PathOffset | src/uboot/lib/libfdt/fdt_ro.c:252-300 | the node the parts of the path lead to, each to the first child accepted, NOTFOUND exactly if one leads nowhere |
| Paths.PathRoundTrip | src/uboot/lib/libfdt/fdt_ro.c:252-300 | fdt_path_offset undoes fdt_get_path exactly for the nodes of which, at every step of the way, no earlier sibling is accepted for the name |
| Paths.Shadowed | src/uboot/lib/libfdt/fdt_ro.c:252-300 | with children a@1 and a, in this order, the path /a of the second leads to the first |
| Paths.SelectsItself | src/uboot/lib/libfdt/fdt_ro.c:17-36 | a child is selected by its own name exactly if no earlier sibling is accepted for that name |
| Regions.Visit | src/uboot/lib/libfdt/fdt_region.c:56-112 | one round of the switch computes want, path, inclusion and stop position of the token, and fails exactly if depth or path do not fit |
| Regions.Update | src/uboot/lib/libfdt/fdt_region.c:114-131 | the regions recorded so far are the maximal runs of covered tokens so far |
| Regions.FindRegions | src/uboot/lib/libfdt/fdt_region.c:30-147 | fails exactly if the tree is too deep or a path too long; the result tells exactly whether the array was large enough, and then the array holds the maximal runs of covered tokens; a failure returns BADSTRUCTURE or NOSPACE as the first node that does not fit is too deep or has too long a path |
| Regions.RegionsInOrder | src/uboot/lib/libfdt/fdt_region.c:30-147 | the regions are non-empty, in order, disjoint and do not touch |
| Regions.TokenBytesHeld | src/uboot/lib/libfdt/fdt_region.c:30-147 | a byte of a token is in a region exactly if the token is covered |
| Regions.PropertyCovered | src/uboot/lib/libfdt/fdt_region.c:61-68 | a property is covered exactly if its node is listed and its name is not excluded |
| Regions.NodeCovered | src/uboot/lib/libfdt/fdt_region.c:75-96 | the tag and name of a node are covered exactly if the node or its parent is listed |
| Regions.NopCovered | src/uboot/lib/libfdt/fdt_region.c:70-73 | a NOP tag inside a node is covered exactly if the node is listed |
| Regions.EndCovered | src/uboot/lib/libfdt/fdt_region.c:99-110 | the END_NODE of a node is covered exactly if the node or its parent is listed, or its last item is a listed child |
| Regions.RegionsKept | src/uboot/lib/libfdt/fdt_region.c:30-147 | another value of the same length leaves the list of regions as it is |
| Regions.ContentsKept | src/uboot/lib/libfdt/fdt_region.c:30-147 | and if the property is not covered no contents of any region change |
| Regions.TableHeld | src/uboot/lib/libfdt/fdt_region.c:138-143 | the last region goes on to the end of the structure block, and with the strings asked for takes as many bytes more as these have; no other region is different |
| Regions.StringsHeld | src/uboot/lib/libfdt/fdt_region.c:138-143 | the last region then holds the strings exactly if they follow the structure block directly |
| RegionLaws.ListedPath | src/uboot/lib/libfdt/fdt_region.c:75-96 | the path compared with the list is the one fdt_get_path gives |
| RegionLaws.RoomFor | src/uboot/lib/libfdt/fdt_region.c:75-90 | every tree less than 32 levels deep whose paths leave two bytes of the path buffer is accepted, and no accepted tree is deeper or leaves less than one |
| RegionLaws.FailsAt | src/uboot/lib/libfdt/fdt_region.c:75-90 | a failure is BADSTRUCTURE exactly if the first node that does not fit is too deep, else NOSPACE |
| Div64.TestMeans | src/uboot/include/div64.h:75-85 | the test at the point x passes exactly if x times the excess of the rounded-up multiplier stays below p * 2^64 |
| Div64.RoundUpTheorem | src/uboot/include/div64.h:71-85 | when the test passes at that one point, the rounded-up multiplier is exact for every 64-bit dividend |
| Div64.BiasTheorem | src/uboot/include/div64.h:94-106 | when it fails, the rounded-down multiplier with one more multiple added is exact for every 64-bit dividend |
| Div64.SpecialTheorem | src/uboot/include/div64.h:88-93 | when the odd part divides 2^64 - 1, its biased reciprocal is exact |
| Div64.PastTest | src/uboot/include/div64.h:75-85 | above the test point no dividend can fail |
| Div64.MacroReciprocal | src/uboot/include/div64.h:71-73 | the 64-bit wrapping computation of the multiplier gives the true reciprocal rounded up |
| Div64.Reduce | src/uboot/include/div64.h:113-128 | dividing multiplier and p by the common power of two found through the most significant bit of ___bits loses nothing |
| Div64.TestProduct | src/uboot/include/div64.h:78-84 | the limb product at the test point is the exact high half |
| Div64.ArchXprod64 | src/uboot/include/div64.h:160-194 | all three ways of adding the 32-bit limb products give the high half of (bias ? m : 0) + m * n, with no carry lost |
| Div64.Div64Const32 | src/uboot/include/div64.h:54-147 | exactly dividend / b for every 64-bit dividend and every 32-bit divisor that is no power of two |
| Div64.PowerOfTwoTest | src/uboot/include/linux/log2.h:50-53 | x & (x - 1) is 0 exactly for powers of two |
| Div64.MaskIsMod | src/uboot/include/div64.h:210 | masking with 2^k - 1 is the remainder |
| Div64.LowRemainder | src/uboot/include/div64.h:215-219 | the remainder computed from low halves in 32 bits is the true one |
| Div64.DoDiv | src/uboot/include/div64.h:204-226 | quotient and remainder are those of the division |
| Dma.TransDataByDma | src/uboot/drivers/mmc/sunxi_mmc.c:418-459 | the descriptors are the chain of the transfer, or ENOMEM exactly if there are too few |
| Dma.ChainRuns | src/uboot/drivers/mmc/sunxi_mmc.c:418-459 | an engine that runs the chain delivers exactly the data to exactly the buffer |
| Dma.ChainShape | src/uboot/drivers/mmc/sunxi_mmc.c:442-459 | one FIRST and one LAST descriptor, pieces of at most the limit, each starting where the one before ended |
| Dma.EnoughDescs | src/uboot/drivers/mmc/sunxi_mmc.c:749-759 | a legal chunk never needs more descriptors than the driver has |
| MmcRead.Mmc.TransDataByCpu | src/uboot/drivers/mmc/sunxi_mmc.c:373-406 | on success exactly the words of the FIFO are in the buffer; only a timeout makes it fail |
| MmcRead.Mmc.SendRead | src/uboot/drivers/mmc/sunxi_mmc.c:548-686 | on success exactly the data of the card are at the destination; it fails only for an unaligned destination, a dead controller or a fault on the way |
| MmcRead.Mmc.ReadBlocks | src/uboot/drivers/mmc/mmc.c:385-424 | the argument, a block number or a byte address, selects the blocks meant and their bytes arrive |
| MmcRead.Mmc.Bread | src/uboot/drivers/mmc/mmc.c:426-468 | success delivers exactly the blocks asked for, the requests made cover the range once and in order in chunks of at most b_max, nothing outside the destination changes; it fails only for a range past the end or for a fault |
| MmcRead.Mmc.ReadData | src/storage.c:87-96 | success delivers exactly the sectors asked for, from the one of the offset on; the bytes wanted are among them if the offset is aligned and the sum does not wrap; it fails only for a range past the end or for a fault |
| MmcRead.SectorsExact | src/storage.c:91 | the 32-bit sector count is right exactly if the sum does not wrap |
| MmcRead.SectorsLost | src/storage.c:91 | 2^32 - 1 bytes in blocks of 512 come out as no sector at all |
| BootfsLoad.LoadSectors | src/storage.c:186-200 | no length bootfs_load_image accepts makes the sum wrap |
| ModeSelect.Mmc.SetClock | src/uboot/drivers/mmc/mmc.c:1553-1569 | the clock is the nearest value within f_min and f_max |
| ModeSelect.MmcListed | src/uboot/drivers/mmc/mmc.c:1860-1896 | a configuration of an eMMC is tried exactly if both sides are capable of its mode and its width; the double data rate needs four lines |
| ModeSelect.MmcBestFirst | src/uboot/drivers/mmc/mmc.c:1860-1896 | from the frequencies alone: the configurations are tried from fast to slow and within a mode from wide to narrow, if legacy mode is at most 26 MHz; below that strictly from better to worse |
| ModeSelect.MmcTooFast | src/uboot/drivers/mmc/mmc.c:1860-1896 | with high speed and legacy mode both possible, 26 MHz is the exact limit for that |
| ModeSelect.MmcBest | src/uboot/drivers/mmc/mmc.c:1860-1896 | the first one tried is the best of all both sides are capable of: highest rate, then widest |
| ModeSelect.SdListed | src/uboot/drivers/mmc/mmc.c:1644-1680 | the same list for an SD card: exactly what both sides are capable of |
| ModeSelect.SdBestFirst | src/uboot/drivers/mmc/mmc.c:1644-1680 | always tried from better to worse |
| ModeSelect.SdBest | src/uboot/drivers/mmc/mmc.c:1644-1680 | the first one tried is the best |
| ModeSelect.Mmc.Switch | src/uboot/drivers/mmc/mmc.c:743-807 | success means that the card has the value; whatever happens the other register stays, and it fails only after a fault |
| ModeSelect.Mmc.SetCardSpeed | src/uboot/drivers/mmc/mmc.c:814-881 | success means that the card has the timing of the mode |
| ModeSelect.Mmc.TryMmc | src/uboot/drivers/mmc/mmc.c:2064-2138 | one configuration: card and host agree on width, data rate and timing, or the host is back in legacy mode at one bit |
| ModeSelect.Mmc.TryModes | src/uboot/drivers/mmc/mmc.c:2053-2144 | under any pattern of failures the configurations are tried in the order of their list; success leaves the last one tried in use, agreed on and allowed by both, with the clock in range; failure means that all failed and the host fell back; every configuration given up had a fault of its own |
| ModeSelect.Mmc.SelectModeAndWidth | src/uboot/drivers/mmc/mmc.c:2011-2145 | the same for the whole function, with its early returns; without a fault it succeeds exactly if there is a configuration both sides are capable of, and the one in use is the best of them by rate and then width |
| ModeSelect.Mmc.SdSelectBusWidth | src/uboot/drivers/mmc/mmc.c:1387-1414 | success means that the card has the width |
| ModeSelect.Mmc.SdSetCardSpeed | src/uboot/drivers/mmc/mmc.c:1338-1385 | success means that the card switched to the function of the mode |
| ModeSelect.Mmc.TrySd | src/uboot/drivers/mmc/mmc.c:1728-1768 | one configuration: card and host agree, or the host is back in legacy mode |
| ModeSelect.Mmc.SdSelectModeAndWidth | src/uboot/drivers/mmc/mmc.c:1688-1775 | the SD counterpart of the mode selection, with the best configuration in use if there is no fault |
| Bootfs.Builder.DataAddFile | src/conf.c:90-126 | each path is in the data list once, and entries keep their places |
| Bootfs.Disjoint | src/conf.c:484-502 | data extents are 512-aligned, past the 33 metadata blocks and pairwise disjoint |
| Bootfs.NoGaps | src/conf.c:484-502 | the first extent begins at block 33 and less than a sector is left between two of them |
| Bootfs.WriteData | src/conf.c:489-502 | every data file is on the device at its offset |
| Bootfs.LayoutFiles | src/conf.c:505-565 | files fill the slots no configuration uses, 51 at a time, in order and as far as the slots go |
| Bootfs.BuildConf | src/conf.c:507-523 | the configuration block has the name, the command line and the extents of the images of the configuration |
| Bootfs.BuildFiles | src/conf.c:530-552 | the next block of files takes up where the last one ended |
| Bootfs.WriteFs | src/conf.c:478-565 | superblock, 32 metadata blocks and data are on the device; the superblock reads back as magic, version 1, default configuration 0 and the device id |
| Bootfs.FindFile | src/storage.c:210-232 | the first file of the name in the metadata blocks, none if there is none |
| Bootfs.FileRoundTrip | src/conf.c:484-565 | the first file of a name is found exactly if the slots go that far, and then decodes to an extent that holds its contents |
| Bootfs.FilesLost | src/conf.c:530-552 | with 25 configurations and 400 files only 357 files are recorded, and the last is not found |
| Bootfs.OtherNames | src/storage.c:210-235 | a name no file has is not found |
| Bootfs.ImageRoundTrip | src/conf.c:505-528 | every image of every configuration decodes to an extent that holds its contents, and unused entries have type 0 |
| Bootfs.ConfTextRoundTrip | src/conf.c:507-515 | without NUL bytes in them, the command line of configuration i reads back at byte 104 of its block, its name at byte 1952; what is too long for the field is cut off before the last byte |
| Bootfs.SuperReads | src/conf.c:478-487 | magic, version, default configuration and device id read back from the superblock |
| BootfsLoad.LoadImage | src/storage.c:186-208 | the extent arrives in memory byte for byte; -1 only for a misaligned or oversized extent, one past the end, or a failed read |
| BootfsLoad.LoadFile | src/storage.c:210-235 | from name to bytes: the first file written under the name arrives in memory if the slots went that far, -1 otherwise; for a file with a slot -1 only as for an extent |
| Rle.SizeBound | src/fonts/mkbin.c:82-134 | the code is at most three bytes for two, plus one if the input starts with a literal |
| Rle.RoundTrip | src/fonts/mkbin.c:82-134 | decoding what was encoded gives the input without the last TrailingRun % 127 bytes |
| Rle.Lossless | src/fonts/mkbin.c:82-134 | the code is lossless exactly if the run that reaches past the end of the input has a length that is a multiple of 127; in particular if the last byte differs from the byte after it |
| Rle.Loss | src/fonts/mkbin.c:82-134 | a concrete input that is lost |
| Rle.EncSize | src/fonts/mkbin.c:49-80 | the length the encoder will produce |
| Rle.Encode | src/fonts/mkbin.c:82-134 | the encoded input, nothing past it written, at most (3 n + 1) / 2 bytes |
| Rle.Unrle | src/vidconsole.c:40-65 | exactly the decoded bytes are written |

## Left out

- The header is a record next to the buffer, not the first 40 bytes of it; stores never alias it.
- Device tree versions other than 17, except in fdt_open_into and the scan it uses, which take 16 and later; the lowering of later versions in fdt_rw_probe_ beyond a passing check.
- Malformed blobs: contracts require well-formed ones, so most paths that return BADSTRUCTURE, TRUNCATED or BADLAYOUT are modelled as code but not reached.
- Blobs of 2^31 - 1 bytes and more, and property values within 16 bytes of that size.
- Reserve.AddMemRsv: is for sizes above 0; an entry of size 0 would end the list.
- SwWriter.Writer.AddReservemapEntry: is for sizes above 0, for the same reason.
- NodeEdits.DelNode: is for nodes below the root; without a root there is no tree.
- NodeEdits.NopNode: is for nodes below the root, for the same reason.
- NOP tags after the END_NODE of the root.
- fdt_set_name, fdt_check_header, fdt_check_full, the string list functions and fdt_node_offset_by_compatible.
- The fdt_get_string branch for a blob the sequential writer has not finished.
- Paths.PathOffset: is for paths that start at the root; aliases are not modelled.
- OverlayTarget.GetTarget: has no aliases either, for the target-path of a fragment.
- OverlayMerge.MergeOverlay: has no aliases either, for the target-paths of all fragments.
- MergeLaws.OverlayNode: is for overlays whose sibling names do not answer to each other; the same holds for MergeLaws.NoOtherNode and PatchLaws.FixupsNode. With siblings a and a@1 in the overlay both are merged, in order, as Merge.MergedKid says of each.
- RegionLaws.ListedPath: assumes that only the root has an empty name.
- RegionLaws.RoomFor: assumes node names without slashes.
- Paths.GetPath: assumes node names without slashes, as the Devicetree Specification has them; the same holds for Regions.PropertyCovered and Regions.NodeCovered.
- OverlayApply.Apply: is for overlays that need neither `__fixups__` nor `__symbols__`, whose strings are parsed with strtoul and strchr; these are not part of this model.
- OverlayApply.UpdateLocalReferences: the local fixups must not describe themselves.
- References.UpdateKids: the fixups must not describe the node they are in.
- References.UpdateNode: the fixups must not describe the node they are in; a word read past the end of a value is taken as 0, since no store follows it.
- InPlace.SetPropInPlacePartial: what a store past the value overwrites is not modelled; the result is then STRAY.
- Packing.OpenInto: where the size read is wrong, states errors, header and frame, not what becomes of the tree; such sizes make sums below 2^31 - 1, and a read past the memory is STRAY. Says nothing of the tree of a version 16 blob with a block at offset 36 to 39 in a build without basic checks, where the new size word lies. Where the new header covers the old boot CPU number at another offset, the word read is a parameter. Blob and buffer lie in one memory below 2^31 bytes.
- SwWriter.Writer.AddString: strings and name together stay below 2^31 - 1 bytes; what a store below the buffer overwrites is not modelled.
- SwWriter.Writer.Finish: speaks of calls that describe one tree; what becomes of unbalanced calls is not stated.
- Regions.FindRegions: keeps the path as a string with the length checks of the code; fdt_next_region, alias and supernode regions are not modelled.
- Reserve.ShrinkToMinimum: the caller has the memory the blob grows into, which the code does not check.
- fdt_fixup_memory_banks and the other fixups of fdt_support.c.
- Div64.DoDiv: covers constant divisors and 32-bit dividends; `__div64_32` is not in the repository. Shifts are divisions by powers of two, x & -x is the lowest set bit as a function.
- MMC: registers, clock programming, FIFO state, cache flushes and time; polling for busy on DAT0 (taken as unsupported), voltages, tuning, HS200, HS400 and UHS modes, reading the SD status register; multi-block reads end by the controller's automatic stop.
- ModeSelect.Mmc.Switch: assumes that a status read without error tells whether the card refused the last switch it received.
- MmcRead.Mmc.ReadData: promises the wanted bytes for aligned offsets only, as the source does with whole sectors; the destination must have room for whole sectors; addresses are indices into one memory below 4 GiB.
- bootfs_open and its search over partitions, image selection and the boot menu.
- Option parsing, complete_conf, directory listing and output of conf.c; file contents are parameters, and the data of an entry is what was read when it was added.
- Bootfs.FileRoundTrip: asks for a total size below 4 GiB, which the writer does not check.
- Rle.Encode: the input is followed by two more bytes of memory, which the encoder may look at.
