# boot0 and AR100S: verified models

Dafny 4.11 models of the hardware-independent logic of the Allwinner A733 boot0
and of the AR100S power-controller firmware, with proofs of what that logic is
for. `dafny verify dfyconfig.toml` checks the whole project.

**Flattened device trees (libfdt).** A blob is a byte buffer. `FdtFormat` models
`fdt_next_tag` with its 32-bit arithmetic and proves that walking a structure
block and encoding a list of tags are inverse to each other, except for one kind
of property whose length wraps (`LengthWraps`), for which a concrete input shows
that the walk stalls. `FdtTree` defines trees, their events in document order,
and the edits the library promises; `FdtBlob.Denotes` ties a blob to the tree its
tag walk spells, NOPs left out and names looked up. Against that:

- the readers (`FdtWalk`, `FdtProps`, `FdtChild`, `FdtPath`, `FdtGetPath`) answer
  questions about the tree, and printing a path and looking it up again are
  inverse (`FdtRoundTrip`) exactly when no earlier sibling answers to a name;
- the in-place editors (`FdtWip`) and the splicing editors (`FdtSplice`,
  `FdtStrings`, `FdtRw`) perform tree edits, agree with each other and with the
  readers (`FdtEdits`), and keep the order of the blocks; `FdtWitness` holds
  blobs on which corner cases show;
- `FdtPack` and `FdtOpen` move all blocks, in place or between overlapping
  buffers, and keep tree and reserve list;
- the sequential writer (`FdtSw` as functions on the buffer, `FdtWriter` as the
  code that computes them) keeps the invariant of a half-built blob
  (`FdtSwState`), and the finished blob reads as the calls that wrote it
  (`FdtFinish.WriteThenRead`).

A node offset is described by `OnNode` (it is the offset of an opening tag of the
walk) or `Refused` (the library's node check turns it away); chunk numbers are
ghost parameters. `Walkable`, `Resolved` and `Separate` say what the code takes
for granted of a blob: the walk from offset 0 ends, every name offset is a
terminated string of the table, blocks do not share bytes. Blobs are version 17
and buffers shorter than 2^31 bytes.

**DRAM parameters (`Handoff`).** boot0 patches 96 cells of the device tree; the
AR100S parses them back with other code for the property names. `HandOver` is
both sides in a row.

**Firmware image packages.** `Fip` defines what a package is without reference to
the code and proves the parser equivalent to it; `FipRead` reads a package in two
passes from a medium that may answer differently every time; `FipPlace` copies
the images into their windows of one memory that also holds the staging area;
`FipBoot` composes load, device tree patch, handoff stub and the AR100S reading
its tree on that memory.

**Mailbox.** `Mailbox` is a machine of interleaved steps of a sender and a
receiver over the eight-word FIFO, with an invariant over every run, delivery in
order, absence of deadlock and a bound on the length of every run.
`MailboxSync` adds a receiver that gives up on a frame: when its drain leaves the
stream in step, and that every later message is then delivered.
`MailboxPorts` is the code of both sides, each against a peer that moves between
any two accesses; the receiver's ports keep count of every word that arrives.

**Small cores.** `DramCrc` (words are their 32 bits), `Counter` (a monotone
64-bit counter read in halves, as a function of the access it begins at), `LeWindows` (four window slots), `Voltage`
(selector tables).

`Bytes.dfy` and `Memory.dfy` hold byte-string lemmas, `memcpy`, `memmove` and
`memcmp`.

## Results about the code itself

- `fdt_next_tag` accepts a property whose length field carries the offset past
  2^32 (`FdtFormat.AcceptedIsChunk`); with length 2^32 - 12 the walk does not
  advance (`FdtFormat.WrappedLengthStalls`).
- `fdt_path_offset` of a printed path is not always the node printed: an earlier
  sibling whose name matches up to its unit address shadows it.
  `FdtRoundTrip.NamesLeadBack` gives the exact condition and
  `FdtRoundTrip.ShadowedNode` such a tree.
- `_fdt_rw_check_header` passes the structure's size as an int and accepts a
  header in which it is 2^32 - 16 (`FdtWitness.OrderTestWraps`). `Misordered` is
  the test with the library's own `libfdt_env.h`, whose header words are 64 bits
  wide; `FdtSplice.MisorderedMeans` says when it is the order of the blocks, and
  `MisorderedMeans32` when the test with boot0's 32-bit header words is.
- `_fdt_rw_check_header` looks at the first reserve entry only. A map that runs
  on into the structure makes `fdt_pack` overwrite blocks it has still to move,
  and write past the old totalsize (`FdtWitness.PackLosesTree`). `FdtPack.Pack`
  says exactly which blobs survive; a map that fits in front of the structure is
  enough (`FdtPack.MapBeforeStruct`).
- `fdt_setprop` that fails with NOSPACE leaves the name in the strings exactly
  when it is new and fits alone (`FdtRw.SetProp`, `FdtWitness.NospaceGrows`); the
  tree is unchanged.
- `_fdt_find_add_string` of the writer compares an unsigned sum: a new name longer
  than what the buffer has below the string table passes the test and is written
  before the buffer's start (`FdtSw.RoomTestMeans`, `FdtWitness.LongNameSlips`).
- `fdt_add_reservemap_entry` does not look at the strings: after a property
  refused before the first tag an entry may overwrite the name it left
  (`FdtSwState.ReserveClash`, `FdtWitness.ReserveOverName`).
- `memcmp` of the AR100S counts zero as 2^32 (`Memory.MemCmp`), so that the empty
  name never reads as equal but by accident (`FdtProps.StringEq`).
- The drain after a timed-out receive leaves the FIFO at a frame boundary if and
  only if the sender is not within a frame (`MailboxSync.InStepIff`,
  `MailboxSync.OutOfStep`).
- `cnt64_udelay` waits long enough exactly when its deadline fits 64 bits
  (`Counter.Cpucfg.Udelay`, `Counter.DelayCutShort`).

## Model

| member | source | states |
|---|---|---|
| `FdtFormat.InStructMeans` | ar100s/library/libfdt/fdt.c:77-91 | the bounds test of `fdt_offset_ptr`, with its 32-bit wrap, is true exactly when the range starts at a non-negative offset and ends inside the structure block |
| `FdtFormat.NextTagOnChunk` | ar100s/library/libfdt/fdt.c:93-141 | on a well-formed tag `fdt_next_tag` returns that tag and steps over exactly its bytes |
| `FdtFormat.AcceptedIsChunk` | ar100s/library/libfdt/fdt.c:93-141 | conversely, what `fdt_next_tag` accepts is a well-formed tag it moves past, if and only if it is not a property whose length carries the offset past 2^32 |
| `FdtFormat.PropStep` | ar100s/library/libfdt/fdt.c:120-136 | where an accepted property leads: past its padded value, or, when the length wraps, to the wrapped offset; a wrapped step never covers a well-formed property |
| `FdtFormat.WrappedLengthStalls` | ar100s/library/libfdt/fdt.c:123-139 | the concrete property of length 2^32 - 12 that `fdt_next_tag` accepts without moving on |
| `FdtFormat.NextTagWalks` | ar100s/library/libfdt/fdt.c:93-141 | calling `fdt_next_tag` again and again on an encoded sequence of tags visits them one by one and then FDT_END |
| `FdtFormat.WalkIffDecodes` | ar100s/library/libfdt/fdt.c:93-141 | the walk from offset 0 yields a list of tags if and only if the block is the concatenation of those tags and an FDT_END; so a block has at most one reading |
| `FdtTree.EventsInjective` | ar100s/library/libfdt/fdt.c:93-141 | two trees with the same event sequence are the same tree, whatever follows the events |
| `FdtBlob.DenotesOneTree` | ar100s/library/libfdt/fdt.c:93-141 | a blob denotes at most one tree |
| `FdtWalk.OpeningTagIsNode` | ar100s/library/libfdt/fdt.c:143-150 | every opening tag the walk meets is a node of the denoted tree, in its own place of it |
| `FdtWalk.FdtNextTag` | ar100s/library/libfdt/fdt.c:93-141 | the code computes the specified tag and next offset for every start offset |
| `FdtWalk.FdtNextNode` | ar100s/library/libfdt/fdt.c:161-199 | from a node, or from the first tag when the offset is negative: the next opening tag with its depth, or the close that takes depth below zero, or the end of the walk; nothing between is skipped; BADOFFSET for an offset the node check refuses |
| `FdtWalk.FdtNodeEndOffset` | ar100s/library/libfdt/fdt_wip.c:97-105 | the offset just past the tags of the node and its subnodes; the error of the node check for an offset it refuses |
| `FdtNode.NodeEndIsNode` | ar100s/library/libfdt/fdt_wip.c:97-105 | cutting the tags from a node's to the end offset found for it removes exactly that node from the tree |
| `FdtProps.NextProp` | ar100s/library/libfdt/fdt_ro.c:108-130 | stops at the first tag that is not a NOP: its offset for a property, NOTFOUND at a node's start or end, BADSTRUCTURE at FDT_END |
| `Memory.MemCmp` | ar100s/library/string.c:237-248 | 0 if and only if the first n bytes are equal, for n above zero; a count of zero compares all 2^32 bytes of memory |
| `FdtProps.StringEq` | ar100s/library/libfdt/fdt_ro.c:83-89 | for a name that is not empty, true exactly when the string is the name; of the empty name it depends on all memory behind both pointers |
| `FdtProps.FdtGetProperty` | ar100s/library/libfdt/fdt_ro.c:260-282 | finds the first property of the (not empty) name among the node's leading properties, or NOTFOUND with proof that there is none; BADOFFSET when the node check refuses |
| `FdtProps.FdtGetProp` | ar100s/library/libfdt/fdt_ro.c:292-302 | the bytes returned are the tree's value of that property of that node; NULL if and only if the tree has none |
| `FdtChild.NodenameIs` | ar100s/library/libfdt/fdt_ro.c:58-76 | the byte comparison accepts exactly a node name equal to the one asked for, or equal up to its '@' when the one asked for has none |
| `FdtChild.SubnodeOffset` | ar100s/library/libfdt/fdt_ro.c:132-149 | returns the first direct subnode whose name matches, never a deeper one; NOTFOUND if and only if there is none |
| `FdtPath.PathOffset` | ar100s/library/libfdt/fdt_ro.c:157-199 | an absolute path leads to the node its components name one after another in the tree; NOTFOUND if and only if a component matches no subnode |
| `FdtGetPath.GetPath` | ar100s/library/libfdt/fdt_ro.c:418-468 | succeeds if and only if the node's path with its terminator fits the buffer (and the buffer has two bytes), and then the buffer holds exactly that path and a terminator |
| `FdtGetPath.PopTo` | ar100s/library/libfdt/fdt_ro.c:441-447 | popping components by looking for slashes ends exactly at the ancestor's path, for names without slashes |
| `FdtGetPath.AboveIsOpen` | ar100s/library/libfdt/fdt_ro.c:431-447 | the names still open at a node, walking the events, are the names of its ancestors |
| `FdtRoundTrip.NamesLeadBack` | ar100s/library/libfdt/fdt_ro.c:157-199 | following a node's own names from the root leads back to it if and only if no earlier sibling on the way matches a name |
| `FdtRoundTrip.ShadowedNode` | ar100s/library/libfdt/fdt_ro.c:157-199 | a tree with a node whose path leads to an earlier sibling |
| `FdtRoundTrip.PathThereAndBack` | ar100s/library/libfdt/fdt_ro.c:157-199 | whenever `fdt_get_path` of a node succeeds, `fdt_path_offset` of the string it printed returns the same offset if and only if the node is not shadowed |
| `FdtRoundTrip.PathSplits` | ar100s/library/libfdt/fdt_ro.c:418-468 | the printed path splits into exactly the names below the root |
| `FdtRoundTrip.SameNode` | ar100s/library/libfdt/fdt_ro.c:418-468 | two tags open the same place of the tree if and only if they are the same tag |
| `FdtTree.WithPropReads` | ar100s/library/libfdt/fdt_rw.c:274-291 | in the tree with a property set, that property reads as the new value and every other as before |
| `FdtTree.WithPropTwice` | ar100s/library/libfdt/fdt_rw.c:274-291 | setting a property twice is setting it once to the second value |
| `FdtWip.SetPropInplace` | ar100s/library/libfdt/fdt_wip.c:58-73 | success if and only if the property exists with that length; then the node reads with the new value, the tags before it are the same and no byte outside the value changes |
| `FdtWip.NopRegion` | ar100s/library/libfdt/fdt_wip.c:75-81 | overwrites exactly the region with NOP tags, one per word |
| `FdtWip.NopProperty` | ar100s/library/libfdt/fdt_wip.c:83-95 | the blob denotes the tree without that first property of the name; only bytes of its tag change; NOTFOUND exactly when there is none |
| `FdtWip.NopNode` | ar100s/library/libfdt/fdt_wip.c:107-118 | the blob denotes the tree without the node, and no tree if it was the root; only bytes of its tags change |
| `FdtEdits.NopOrDeleteProperty` | ar100s/library/libfdt/fdt_wip.c:83-95 | `fdt_nop_property` and `fdt_delprop` on equal blobs return the same verdict and leave blobs that denote the same tree |
| `FdtEdits.NopOrDeleteNode` | ar100s/library/libfdt/fdt_wip.c:107-118 | `fdt_nop_node` and `fdt_del_node` on equal blobs both succeed and leave blobs that denote exactly the same trees: one below the root, none after erasing it |
| `FdtEdits.SetThenGet` | ar100s/library/libfdt/fdt_rw.c:274-291 | after a successful `fdt_setprop`, `fdt_getprop` returns exactly the value, and any other property of the node as it was before |
| `FdtSplice.MisorderedMeans` | ar100s/library/libfdt/fdt_rw.c:58-68 | with the library's own header (64-bit header words) the test finds reserve map, structure and strings in order inside the blob exactly when the structure's size, which it gets as an int, is not negative |
| `FdtSplice.MisorderedMeans32` | ar100s/library/libfdt/fdt_rw.c:58-68 | with boot0's header (32-bit header words) it does exactly when no end of a block wraps |
| `FdtSplice.StricterTest` | ar100s/library/libfdt/fdt_rw.c:58-68 | whatever the 64-bit test accepts the 32-bit test accepts |
| `FdtSplice.RwCheckOrdered` | ar100s/library/libfdt/fdt_rw.c:70-83 | a blob is in order exactly when the header check accepts it and its structure's size is below 2^31 |
| `FdtWitness.OrderTestWraps` | ar100s/library/libfdt/fdt_rw.c:58-83 | a header with a structure size of 2^32 - 16 that both tests accept although its structure reaches beyond the blob |
| `FdtSplice.RwCheckHeader` | ar100s/library/libfdt/fdt_rw.c:70-83 | returns the verdict of the 64-bit test; an accepted blob is marked down to version 17, nothing else changes, and an ordered blob stays the same blob |
| `FdtSplice.Splice` | ar100s/library/libfdt/fdt_rw.c:97-108 | the bytes up to the splice point stay, the data after the replaced range moves to its new place; NOSPACE exactly when the data would pass totalsize |
| `FdtSplice.SpliceStruct` | ar100s/library/libfdt/fdt_rw.c:123-135 | the splice with the structure size and the strings offset adjusted |
| `FdtSplice.SpliceStructEffect` | ar100s/library/libfdt/fdt_rw.c:123-135 | after it: the structure block with that range replaced, the same strings, the same bytes before the structure block, blocks still in order |
| `FdtSplice.SpliceString` | ar100s/library/libfdt/fdt_rw.c:137-148 | the strings block is longer by that much and nothing else has moved |
| `FdtStrings.FindString` | ar100s/library/libfdt/fdt.c:229-239 | finds the first offset at which the string and its terminator lie in the table, or proves there is none |
| `FdtStrings.FindAddString` | ar100s/library/libfdt/fdt_rw.c:150-170 | the offset returned reads as the name; the table keeps every string it had; NOSPACE exactly when the name is new and does not fit |
| `FdtRw.ResizeProperty` | ar100s/library/libfdt/fdt_rw.c:205-221 | the property keeps its place and name with a value of the new length, every other tag is as before; the exact NOSPACE condition |
| `FdtRw.AddProperty` | ar100s/library/libfdt/fdt_rw.c:223-249 | the new property is the node's first item; the exact NOSPACE condition for string and tag together |
| `FdtRw.SetProp` | ar100s/library/libfdt/fdt_rw.c:274-291 | success if and only if the tree's growth (padding, a new tag, a new string) fits totalsize; then the node reads with its first property of that name replaced, or prepended; on any failure the blob denotes the same tree and block order, reserve map and totalsize are kept; on NOSPACE everything past the header is as it was, unless and only unless the property is missing and its name is new and would fit alone, and then exactly the name is added |
| `FdtWitness.NospaceGrows` | ar100s/library/libfdt/fdt_rw.c:223-249 | a blob on which a refused property leaves its name in the strings |
| `FdtRw.DelProp` | ar100s/library/libfdt/fdt_rw.c:320-333 | the blob denotes the tree without that property; NOTFOUND exactly when there is none; failures leave the tree as it was |
| `FdtRw.DelNode` | ar100s/library/libfdt/fdt_rw.c:381-393 | the blob denotes the tree without that node, and no tree if it was the root |
| `FdtWalk.EditChunks` | ar100s/library/libfdt/fdt_rw.c:97-108 | replacing whole tags by others, with the string table possibly longer, changes the denoted tree by exactly those tags' events |
| `FdtNode.FoundProp` | ar100s/library/libfdt/fdt_rw.c:205-221 | editing the tag the scan found is editing the first property of that name in the tree |
| `FdtPack.NumMemRsv` | ar100s/library/libfdt/fdt_ro.c:99-106 | counts the reserve entries before the first of size zero |
| `FdtPack.MoveBlock` | ar100s/library/libfdt/fdt_rw.c:395-415 | one block moved with memmove, overlapping or not: exactly its old bytes arrive and nothing else changes |
| `FdtPack.PackBlocks` | ar100s/library/libfdt/fdt_rw.c:395-415 | the header and three blocks end up behind one another, each block with the bytes that lay at its place when its move began; no byte outside the target changes |
| `FdtPack.MovedApart` | ar100s/library/libfdt/fdt_rw.c:395-415 | to a target apart from the old blob the moves deliver its three blocks |
| `FdtPack.DeliveredMeans` | ar100s/library/libfdt/fdt_rw.c:395-415 | packing in place, structure and strings arrive unchanged if and only if every byte that an earlier move puts over them equals the one it replaces |
| `FdtPack.MapBeforeStruct` | ar100s/library/libfdt/fdt_rw.c:481-493 | no move puts anything over a block still to be moved when the map, moved behind the header, ends before the structure |
| `FdtPack.Pack` | ar100s/library/libfdt/fdt_rw.c:481-493 | for every ordered blob: the packed blocks are exactly those the moves deliver, the reserve list is kept, totalsize is the data size and no byte behind it changes; the same structure and strings, and then the same tree, if and only if nothing is clobbered; on a refused header nothing changes |
| `FdtWitness.PackLosesTree` | ar100s/library/libfdt/fdt_rw.c:481-493 | a blob with a tree that the header check accepts and `fdt_pack` turns into one without, longer than its old totalsize |
| `FdtOpen.OpenInto` | ar100s/library/libfdt/fdt_rw.c:417-479 | for every placing of the two buffers in one memory: the error exactly as specified, or the new buffer holds a blob in order with the same tree and the same reserve list and totalsize `bufsize`, and no byte outside it changed |
| `FdtWriter.Create` | ar100s/library/libfdt/fdt_sw.c:88-108 | a buffer of at least 48 bytes becomes an empty blob under construction |
| `FdtWriter.GrabSpace` | ar100s/library/libfdt/fdt_sw.c:73-86 | grants room exactly when the structure would stay below the string table |
| `FdtWriter.FdtBeginNode` | ar100s/library/libfdt/fdt_sw.c:170-184 | the buffer with a padded opening tag appended, or NOSPACE and no change |
| `FdtWriter.FdtEndNode` | ar100s/library/libfdt/fdt_sw.c:186-198 | the buffer with a closing tag appended, or NOSPACE and no change |
| `FdtSw.RoomTestMeans` | ar100s/library/libfdt/fdt_sw.c:200-221 | the room test, whose unsigned sum wraps below zero, tells whether the name fits exactly when table and name together are no longer than the buffer |
| `FdtWitness.LongNameSlips` | ar100s/library/libfdt/fdt_sw.c:200-221 | a fresh buffer and a name longer than it for which the test sees room |
| `FdtWriter.FindAddStringDown` | ar100s/library/libfdt/fdt_sw.c:200-221 | for a name in the table, or a new one for which that sum does not wrap: the negative offset of the name, found in the table or added below it; 0 exactly when it does not fit |
| `FdtSw.AddedDown` | ar100s/library/libfdt/fdt_sw.c:200-221 | the string at the returned distance from the end of the buffer is the name, and the table above it is as it was |
| `FdtWriter.FdtProperty` | ar100s/library/libfdt/fdt_sw.c:223-243 | for the same names: the buffer with the property tag appended and its negative name offset; when only the tag does not fit, the name stays |
| `FdtWriter.FdtAddReserve` | ar100s/library/libfdt/fdt_sw.c:142-163 | one reserve entry more, only before the first tag |
| `FdtSwState.ReserveClash` | ar100s/library/libfdt/fdt_sw.c:142-163 | a reserve entry that is taken leaves a buffer under construction if and only if it stays below the strings, which the code does not compare |
| `FdtSwState.StaysClean` | ar100s/library/libfdt/fdt_sw.c:142-243 | without a refused property before the first tag there are no strings to run into |
| `FdtWitness.ReserveOverName` | ar100s/library/libfdt/fdt_sw.c:142-163 | a fresh buffer on which a refused property leaves its name and the next reserve entry is written over it |
| `FdtSwState.StepHolds` | ar100s/library/libfdt/fdt_sw.c:142-243 | every writer call keeps the invariant of the half-built blob; one that succeeds adds exactly its own event or reserve entry, a refused one nothing |
| `FdtSwState.RunHolds` | ar100s/library/libfdt/fdt_sw.c:142-243 | the invariant after any sequence of calls, refused ones among them: the tags are the events of those that succeeded, in order, and every negative name offset reads as its name although the table has grown since |
| `FdtWriter.Relocate` | ar100s/library/libfdt/fdt_sw.c:256-268 | the end tag, and the string table moved down behind it |
| `FdtWriter.CorrectNames` | ar100s/library/libfdt/fdt_sw.c:270-283 | every property's name offset is counted from the start of the table instead, all other bytes stay |
| `FdtFinish.CorrectedAll` | ar100s/library/libfdt/fdt_sw.c:270-283 | a corrected name offset reads as the same name, for all properties at once |
| `FdtWriter.FinishBlob` | ar100s/library/libfdt/fdt_sw.c:245-288 | the code computes the finished blob of the specification |
| `FdtFinish.FinishedReads` | ar100s/library/libfdt/fdt_sw.c:245-288 | the finished blob reads as the events, names, values and reserve entries of the half-built one |
| `FdtFinish.WriteThenRead` | ar100s/library/libfdt/fdt_sw.c:88-288 | for every sequence of writer calls, refused ones among them, on which no name is overlong and no reserve entry runs into the strings, and a `fdt_finish` that succeeds: the tag walk yields exactly the calls that succeeded with their names and values; a balanced sequence denotes its tree |
| `Handoff.Itoa` | ar100s/library/library.c:6-45 | for a value that is not negative, in base ten: the digits stacked and unstacked are the decimal digits |
| `Handoff.NamesAgree` | ar100s/driver/dram/dram_dts_para_v2.c:37-41 | the reader's formatted name is the writer's patched name for all 96 indices |
| `Handoff.NamesDiffer` | src/hw_config_a733.c:25-26 | no two indices share a name |
| `Handoff.PatchAll` | src/hw_config_a733.c:23-34 | all cells patched in the node, or a failure that some cell is missing or not four bytes long; every byte that changes lies in the four-byte value of one of the 96 properties of the node |
| `Handoff.UpdateDram` | src/hw_config_a733.c:7-37 | 0 if and only if the accepted blob's /dram node holds all 96 parameters as single cells; then the blob denotes the tree with exactly those values set; every byte that changed, on success or failure, lies in the value of one of those properties of that node, and without the node none changed |
| `Handoff.DramDts.Parse` | ar100s/driver/dram/dram_dts_para_v2.c:17-57 | the table is the tree's 96 values when all are there; zeroed when one is missing or of another size; untouched when the header or the node is refused |
| `Handoff.HandOver` | ar100s/driver/dram/dram_dts_para_v2.c:17-57 | whenever the writer returns 0 the reader succeeds on the resulting blob with exactly the writer's array |
| `Fip.OverlapMeans` | src/sunxi_fip.c:240-256 | the interval test is true exactly when the two images share a byte |
| `Fip.EntryUuidSeen` | src/sunxi_fip.c:258-270 | true exactly when an earlier entry has that UUID |
| `Fip.EntryOverlapsPrevious` | src/sunxi_fip.c:240-256 | true exactly when an earlier entry's interval overlaps |
| `Fip.ScpBl2Means` | src/sunxi_fip.c:95-115 | the check accepts exactly an aligned image that starts with the six E902 reset words |
| `Fip.Bl31Means` | src/sunxi_fip.c:117-137 | the check accepts exactly an image with the monitor header, load address and a real first instruction |
| `Fip.Bl33Means` | src/sunxi_fip.c:139-158 | the check accepts exactly an image whose first instruction is an ARM branch to an instruction inside the image |
| `Fip.HwConfigMeans` | src/sunxi_fip.c:172-205 | the check accepts exactly a device tree header that fills the image and keeps its blocks inside it |
| `Fip.HwConfigReadable` | src/sunxi_fip.c:172-205 | an image that passes is in bounds for the device tree reader and passes `fdt_check_header` |
| `Fip.PlacedMeans` | src/sunxi_fip.c:316-320 | the running minimum and maximum decide exactly whether every image lies between the table and the end of the package |
| `Fip.LoadableMeans` | src/sunxi_fip.c:325-331 | the checks on the four filed images are the checks on every entry of the table |
| `Fip.Parse` | src/sunxi_fip.c:272-354 | 0 if and only if the image is a package by the declarative definition, and then the layout lists exactly the entries of its table; no sum wraps 64 bits and every access is inside the image |
| `FipRead.FipSizeFromToc` | src/sunxi_fip.c:381-418 | finds the size the first null entry declares, if and only if it is within the limits |
| `FipRead.SameEnd` | src/sunxi_fip.c:420-448 | the size scan of the first pass and the parser of the second end the table at the same entry |
| `FipRead.TwoPasses` | src/sunxi_fip.c:420-448 | on a medium that does not change, what the two passes accept is exactly a complete package there that declares its own size |
| `FipRead.ReadImage` | src/sunxi_fip.c:420-448 | for every medium, even one that changes between reads: each request fits the capacity, success means the buffer parses, failure leaves the size zero, and no byte outside the buffer changes; on a stable medium success if and only if a package is there |
| `FipRead.ReadRedundant` | src/sunxi_fip.c:450-471 | the first valid of primary and a backup that is not zero and not the primary; failure leaves both results zero |
| `FipPlace.CopiedKeeps` | src/boot0_main.c:66-71 | the copies into the windows keep each other's images and everything in a region apart from them |
| `FipPlace.BootImages.CopyImage` | src/boot0_main.c:264-281 | SCP_BL2 is only recorded, every other image is copied to its window, HW_CONFIG is recorded as well |
| `FipPlace.CopyFour` | src/sunxi_fip.c:363-378 | the copies in their order, HW_CONFIG only when there is one; every source is still intact when it is copied |
| `FipPlace.CopyImages` | src/sunxi_fip.c:356-379 | all images of the package are in place at once, the staged package is unchanged and the recorded SCP source lies in it |
| `FipPlace.LoadRedundant` | src/sunxi_fip.c:473-489 | succeeds, on a stable medium with a willing copier, if and only if primary or backup holds a package; then its images are in place; otherwise both results are zero |
| `FipPlace.LoadedStays` | src/boot0_main.c:399-400 | bytes stored apart from the image windows and the staging area move no image that is to be started |
| `FipBoot.UpdateWindow` | src/boot0_main.c:314-319 | the patch of the device tree where it lies: 0 if and only if it holds all parameters, and no byte outside its window changes |
| `FipBoot.LoadFipImages` | src/boot0_main.c:283-331 | after the load and the patch BL31, BL33 and the recorded SCP source hold their bytes; the device tree handed over is the package's with the 96 parameters set, and none is handed over if and only if the package has none or it lacks a parameter |
| `FipBoot.PrepareHandoff` | src/boot0_main.c:370-400 | the copy of the handoff stub keeps all of that, and fails exactly for a stub that is empty or too long |
| `FipBoot.Boot` | src/boot0_main.c:283-400 | the whole way on one memory, with the AR100S reading the tree it is handed: whenever it is handed one it gets exactly the parameters boot0 had |
| `Mailbox.UnframeFrame` | ar100s/driver/hwmsgbox/hwmsgbox-extended/hwmsgbox-extended.c:312-336 | the receiver's decoding of a frame is the message, clipped to the buffer |
| `Mailbox.StepKeeps` | ar100s/driver/hwmsgbox/hwmsgbox-extended/hwmsgbox-extended.c:162-245 | the invariant over every interleaved step: delivered messages, words in the receiver's hands, in the FIFO and in the sender's hands are the stream of frames, in order |
| `Mailbox.ShortFrameGoesOn` | ar100s/driver/hwmsgbox/hwmsgbox-extended/hwmsgbox-extended.c:148-160 | in every state of every run, a frame that fits the FIFO and is begun finds room for its next word: no later wait blocks |
| `Mailbox.DeliveredInOrder` | ar100s/driver/hwmsgbox/hwmsgbox-extended/hwmsgbox-extended.c:303-351 | under every interleaving the messages received are the first ones sent, in order, including frames longer than the FIFO |
| `Mailbox.StuckMeansDone` | ar100s/driver/hwmsgbox/hwmsgbox-extended/hwmsgbox-extended.c:303-351 | no deadlock: when neither side can go on, every message has been delivered |
| `Mailbox.AllDelivered` | ar100s/driver/hwmsgbox/hwmsgbox-extended/hwmsgbox-extended.c:162-245 | no interleaving is longer than three steps a word, and every one after which no step is possible has delivered all messages |
| `MailboxPorts.RunContinues` | ar100s/driver/hwmsgbox/hwmsgbox-extended/hwmsgbox-extended.c:162-245 | what the code of a side did while its peer moved continues a run of the machine |
| `MailboxPorts.TxPort.WaitSpace` | ar100s/driver/hwmsgbox/hwmsgbox-extended/hwmsgbox-extended.c:89-103 | OK only with room for that many words, EINVAL exactly for more than the FIFO holds |
| `MailboxPorts.TxPort.WaitNotFull` | ar100s/driver/hwmsgbox/hwmsgbox-extended/hwmsgbox-extended.c:72-87 | OK only with room for a word, and always OK inside a reserved short frame |
| `MailboxPorts.TxPort.SendMessage` | ar100s/driver/hwmsgbox/hwmsgbox-extended/hwmsgbox-extended.c:133-246 | writes the whole frame or, on a timeout, nothing of a frame that fits the FIFO and a prefix of a longer one; never writes to a full FIFO; everything it does is steps of the machine |
| `MailboxPorts.RxPort.ReceiveMessage` | ar100s/driver/hwmsgbox/hwmsgbox-extended/hwmsgbox-extended.c:303-351 | no word is lost or made up; on OK and on -E2BIG exactly 2 + count words are removed, for any count up to 255, and exactly the first min(count, capacity) parameters stored; on a timeout the FIFO was seen empty within the frame, and the words removed are those of the unfinished frame and then the drained ones, which end with the FIFO empty or with the 128th, all of it steps of the machine with a receiver that gives up |
| `MailboxPorts.RxPort.Drain` | ar100s/driver/hwmsgbox/hwmsgbox-extended/hwmsgbox-extended.c:343-350 | removes words until the FIFO is empty, at most 128 |
| `MailboxPorts.QueryMessage` | ar100s/driver/hwmsgbox/hwmsgbox-extended/hwmsgbox-extended.c:353-382 | on two queues, which may be one: no word is taken from a queue unless both header words are; FAIL takes nothing and leaves each with fewer than two words; the second queue is served only when the first has fewer; what it does on either is steps of the machine, with the drain among them on a timeout |
| `MailboxSync.InStepIff` | ar100s/driver/hwmsgbox/hwmsgbox-extended/hwmsgbox-extended.c:343-350 | in every state with an empty FIFO, whatever was drained before, the words to come are those of whole messages if and only if the sender is not within a frame |
| `MailboxSync.DeliveredAfter` | ar100s/driver/hwmsgbox/hwmsgbox-extended/hwmsgbox-extended.c:343-350 | from such a state on, every run delivers the messages to come in order, and all of them when neither side can go on |
| `MailboxSync.OutOfStep` | ar100s/driver/hwmsgbox/hwmsgbox-extended/hwmsgbox-extended.c:343-350 | a run in which the drain comes within a frame and a message is delivered that nobody sent |
| `MailboxSync.AnyRunContinues` | ar100s/driver/hwmsgbox/hwmsgbox-extended/hwmsgbox-extended.c:303-351 | what a query did, a timeout with its drain included, continues a run |
| `DramCrc.ShiftInjective` | ar100s/service/standby/standby_dram_crc.c:66-72 | one turn of the register can be undone |
| `DramCrc.WordStepInjective` | ar100s/service/standby/standby_dram_crc.c:66-72 | a word step is one-to-one in the register and in the word |
| `DramCrc.OneWordDetected` | ar100s/service/standby/standby_dram_crc.c:55-76 | regions of equal length that differ in exactly one word have different checksums |
| `DramCrc.WordwiseIsBytewise` | ar100s/service/standby/standby_dram_crc.c:55-76 | for every word array the result is the bytewise table-driven CRC-32 of section 8 of RFC 1952 over its little-endian bytes |
| `DramCrc.CrcService.SetParas` | ar100s/service/standby/standby_dram_crc.c:27-48 | accepts exactly aligned non-empty ranges of at most 16 MiB inside DRAM; a refused call changes nothing; every state keeps a readable range |
| `DramCrc.CrcService.DramCrc` | ar100s/service/standby/standby_dram_crc.c:55-76 | the loops compute the checksum of the words of the range and read only aligned words inside DRAM |
| `Counter.Cpucfg.CounterRead` | ar100s/driver/cpucfg/cpucfg-sun60iw2p1/cpucfg.c:176-192 | for every monotone counter the value lies between the counter at the first and at the last access of the final attempt |
| `Counter.Cpucfg.ReadTwice` | ar100s/driver/cpucfg/cpucfg-sun60iw2p1/cpucfg.c:176-192 | successive readings never go backwards |
| `Counter.Cpucfg.Udelay` | ar100s/driver/timer/timer-extended/timer-extended-delay.c:98-113 | it returns no earlier than 24 ticks a microsecond after its first reading if and only if the deadline fits 64 bits; if not, it ends with its second reading |
| `Counter.DelayCutShort` | ar100s/driver/timer/timer-extended/timer-extended-delay.c:98-113 | a counter near its wrap on which a delay of one microsecond returns early |
| `LeWindows.WithoutBag` | ar100s/driver/cpucfg/cpucfg-sun60iw2p1/cpucfg.c:124-137 | moving the last slot into the hole removes exactly one window from the bag |
| `LeWindows.AddThenRemove` | ar100s/driver/cpucfg/cpucfg-sun60iw2p1/cpucfg.c:72-143 | removing the window added last gives back the slots as they were |
| `LeWindows.Cpucfg.Set` | ar100s/driver/cpucfg/cpucfg-sun60iw2p1/cpucfg.c:72-96 | one window more in a new slot, ENOSPC exactly when all four are used; the enable bits stay (1 << used) - 1 |
| `LeWindows.Cpucfg.Remove` | ar100s/driver/cpucfg/cpucfg-sun60iw2p1/cpucfg.c:98-143 | the highest matching slot's window leaves the bag, or ENODEV exactly when none matches and nothing changes; enable bits dense, freed slot cleared |
| `Voltage.TablesSorted` | src/axp8191_voltage.c:17-48 | the five tables ascend in selector and in voltage |
| `Voltage.Selector` | src/axp8191_voltage.c:64-102 | on every ascending table and for every request it succeeds with the least selector whose voltage is at least the clamped request |
| `Voltage.Monotone` | src/axp8191_voltage.c:64-102 | a higher request never gets a lower selector |
| `Voltage.VoltageSelector` | src/axp8191_voltage.c:64-102 | fails exactly for an unknown rail |

## Left out

- FdtPath.PathOffset: absolute paths only; a path through an alias (`/aliases`) is not modelled.
- FdtGetPath.GetPath: asked about a real node in a blob whose names hold no slash; the errors for other offsets are not modelled.
- FdtRoundTrip.PathThereAndBack: for non-empty names without slashes below an unnamed root, which is what the path syntax can express.
- FdtPack.Pack: the buffer has room for the packed blocks and the reserve map ends inside it; otherwise the code reads or writes past the buffer.
- FdtOpen.OpenInto: the `boot_cpuid_phys` field is not stated; after an overlapping open the code reads it from memory already overwritten.
- FdtWriter.Create: says nothing of buffers of 40 to 47 bytes, which the code accepts although the reserve map lies outside them.
- FdtWalk.FdtNextNode: an offset inside a property value whose bytes read as an opening tag, which the node check accepts, is not modelled.
- FdtWalk.FdtNodeEndOffset: the same offsets.
- FdtProps.FdtGetProperty: names that are not empty; for the empty name the result depends on memory outside the blob and on which `memcmp` is linked (boot0's is in a closed library). The same holds of the readers and editors that search by name: FdtProps.FdtGetProp, FdtChild.SubnodeOffset, FdtWip.SetPropInplace, FdtWip.NopProperty, FdtRw.DelProp, FdtRw.SetProp, FdtEdits.SetThenGet.
- FdtChild.NodenameIs: node names that are not empty, for the same reason.
- FdtRw.SetProp: like the other editors, of a blob whose blocks are in order; what it does to a buffer whose header passes the check only because the structure's size is negative as an int is not modelled.
- FipBoot.Boot: for a medium that does not change and whose device trees the library can walk; a tree that is malformed behind a valid header is not modelled.
- FdtWriter.FindAddStringDown: a new name longer than what the buffer has below the string table is not modelled, because the code then writes before the buffer.
- FdtWriter.FdtProperty: the same names.
- FdtFinish.WriteThenRead: ends at a call with such a name and at a reserve entry that would run into the strings; reserve entries are claimed for runs that begin with a terminated reserve map.
- FipPlace.LoadRedundant: the copier does what `fip_copy_image` does or refuses; other copiers are not modelled.
- Counter.Cpucfg.CounterRead: a counter that stays below 2^64 ticks.
- LeWindows.Cpucfg.Set: states between calls only, from cleared enable bits; during a call a slot is enabled while it is being written.
- MailboxSync.InStepIff: speaks of an empty FIFO; a drain that stops at its 128th word may leave words behind, and nothing is said of them.
- MailboxPorts.TxPort.SendMessage: the frame only; the wait for the reply of a hard-synchronous message on the same channel is not modelled.
- Version 16 blobs, `fdt_add_subnode`, `fdt_set_name`, `fdt_appendprop`, the reserve map edits and `fdt_resize`: the same splices with easier effects.
- `hwmsgbox_feedback_message`: it reserves no room, so no claim about partial frames holds of it.
- NULL arguments of all functions and `fdt_next_node` without a depth.
- Register sequences of clocks, buses, pins, UART, MMC and watchdog; cache maintenance; assembly; the closed libraries: their effects are in hardware.
- `notifier.c`: its removal never matches the head of a longer list, and what remains is easier than the results above.
