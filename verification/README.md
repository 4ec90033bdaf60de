# Verified model of libfdt and of the multi-hart boot protocol

This project models the flattened device tree library in `firmware/libfdt/` and the relocation
and boot protocol of `firmware/head.S`, and proves what they are for:

* every operation on the byte buffer of a device tree blob refines an edit of, or a question
  about, an algebraic tree of nodes and properties;
* the boot protocol is safe and never blocked in every interleaving of any number of harts.

`dafny verify dfyconfig.toml` checks everything.

## How the model is built

* **Bytes** (`Bytes`, `Memory`): the buffer is an `array<byte>`; `memmove`, `memcpy`, `memcmp` and
  `memchr` are loops on it. 32-bit sums that the C code lets wrap are written with `Add32`.
* **Tokens** (`Tokens`): the token grammar of the Devicetree Specification v0.4, section 5.4, with
  padding bytes and NOPs kept, and `NextTag`, the value of `fdt_next_tag` on any bytes.
* **Syntax and tree** (`Structure`): `Items` is the nested syntax of a structure block; `Kids` and
  `Props` give the device tree it stands for. `Decode` proves that the bytes determine both, so "the
  tree of a blob" is a function of its bytes.
* **Blob** (`Blobs`): a class with the header words, the buffer and the ghost syntax. `Img()` is its
  state at one moment, and `Valid()` says that its blocks follow each other, that the structure block
  encodes the syntax, that all names resolve in the strings block and that the reservation list ends
  before the structure block.
* **Readers** (`Scan`, `Loops`, `Readers`, `Walk`, `Siblings`, `Paths`, `Traversals`, `PathStrings`,
  `PathLookups`), **editor**
  (`Splicing`, `Strings`, `Edits`, `Editor`, `NodeEditor`, `Children`, `Reservations`, `RsvEditor`,
  `Packing`), **sequential writer** (`Writer`, `Finish`, `RoundTrip`), **overlay** (`MergeTrees`, `MergeSpace`,
  `Overlay`, `Merging`, `Phandles`, `PhandleSearch`, `Forms`, `References`, `Designations`, `Passes`), **validator**
  (`Check`) and **boot** (`Relocation`, `Harts`) are built on these.

A successful edit is stated as `NodeEdited(before, after, n, nodes)`: the new blob is well formed, its tree
is the old one with the node that was at offset `n` replaced by `nodes` and nothing else changed, the
reservations are the same, and only the size and place words of the header differ.
`KeepsOffsets(before, after, n)` says that every node offset up to `n` still denotes the same node. A failed
edit leaves the blob as it was (`Intact`: header, syntax and every live byte).

Results that go against what one may expect:

* `fdt_next_tag` does not advance on every property: one whose length is 0xfffffff4 has no extent
  (`Tokens.ProgressFails`); `Tokens.NextTagProgress` says that this is the only case.
* Merging an overlay twice can differ from merging it once (`Merging.MergeTwiceDiffers`). It never does, whatever
  the base and the properties, if and only if the names in the overlay are `Stable` (`Merging.MergeTwice`): no
  later sibling name extends an earlier one by '@' unless it was there before, and the same holds inside all
  siblings that can come to be merged into one node. For an overlay whose children have no subnodes only the
  first half is left (`Merging.LeavesStable`).
* `fdt_check_full` accepts blocks that are no token stream: a property length near 2^32 makes the walk go on inside
  the header of the property (`Check.LongLengthPasses`). What it accepts is balanced on all input
  (`Check.WalkExact`), and a token stream exactly if no length is above INT32_MAX (`Check.AcceptedExact`).
* A cell that the local fixups list twice, through two children that mean the same node or two properties of the
  same name, is increased twice (`Designations.TwoNames`, `Designations.TwoProperties`). Cells listed once keep
  what they designate (`Designations.StillDesignates`); for the others `Designations.Designates` says when they do.
* The layout test of the editor adds offsets and sizes without a test for wrap-around: a header whose strings end at
  2^32 passes (`Blobs.LayoutWraps`); `Blobs.LayoutExact` says that wrapping is the only way.
* A reservation of size 0 ends the list: `fdt_add_mem_rsv` stores it without effect, and the writer's
  list is cut there (`RsvEditor.AddMemRsv`, `Reservations.RsvRoundTrip`).
* `fdt_path_offset` of the path that `fdt_get_path` gives for a node finds that node again exactly if every
  node on the way is the first of its siblings that matches its own name (`PathLookups.PathRoundTrip`).

## Assumptions

* Blobs of version 17 (the validator and `fdt_open_into`: at least 17), no `FDT_ASSUME` flag set, an 8-byte
  aligned buffer, total sizes below INT32_MAX, lengths of new names and values at most 0x7fffff00.
* Arguments do not alias the blob; strings are byte sequences without NUL.
* The header is read and written as ten words, not as bytes of the buffer.
* Offsets passed in are not negative (except where `-1` starts a walk), and a bad node or property offset is one that
  `fdt_check_node_offset_` or `fdt_check_prop_offset_` rejects.
* For the validator: input on which its loop ends, which fails exactly where it reaches a property of length
  0xfffffff4 whose name resolves; and eight bytes that can be read behind the buffer, as a property of a length
  near 2^32 is not known to lie inside it when its name offset is read.
* For the writer: a string that has to be added fits with the strings before it into the total size; otherwise the
  unsigned difference in `fdt_add_string_` wraps and the string is written in front of the buffer
  (`Writer.StringWraps`). `RoundTrip.WriteBlob` stops there and says so; the source goes on.
* For paths: a root at structure offset 0, no node right behind the END_NODE of the root, and no slash inside a name.
  With an offset at or behind the end of the root `fdt_get_path` reads in front of the caller's buffer; the model
  stops there and says so (`PathStrings.GetPath`).
* For in-place writes: the index plus the length does not wrap; otherwise the source writes behind the value
  (`Phandles.PartialWraps`).
* For local references: the fixups are a child of the node they apply to and do not list themselves, or lie apart
  from it, and the listed offsets plus 4 do not wrap.
* For the boot protocol: sequentially consistent memory, addresses that are not negative as signed numbers,
  at most 2^32 harts, load and run ranges equal or disjoint, and a `zstage_main` that leaves alone the code
  and header of the running image, the words the other harts watch and the image at the load address.

## Model

| member | source | states |
|---|---|---|
| Blobs.OffsetPtrExact | firmware/libfdt/fdt.c:143-163 | The tests for unsigned wrap-around accept exactly the ranges inside the structure block and the blob |
| Blobs.LayoutExact | firmware/libfdt/fdt_rw.c:13-41 | What the probe of the editor lets through has its blocks in order and inside the blob if and only if no end of a block wraps |
| Blobs.LayoutWraps | firmware/libfdt/fdt_rw.c:13-24 | A header that it lets through whose strings end at 2^32, behind the blob |
| Blobs.NextTagOf | firmware/libfdt/fdt.c:165-217 | On any bytes the loop computes the tag and the next offset or error that the pure scan gives |
| Tokens.NextTagFails | firmware/libfdt/fdt.c:165-217 | TRUNCATED exactly where no tag can be read; BADSTRUCTURE exactly for an unknown tag, a name without an end, or a property that does not end inside |
| Tokens.NextTagProgress | firmware/libfdt/fdt.c:165-217 | A successful step stays aligned and inside the rounded block, and moves forward if and only if the tag is not the stuck property |
| Tokens.ProgressFails | firmware/libfdt/fdt.c:194-197 | The bytes of a property with the length 0xfffffff4, on which a successful step goes nowhere |
| Readers.NextNodeAt | firmware/libfdt/fdt.c:243-281 | On any bytes on which the loop of fdt_next_node ends it returns what the scan over tags gives |
| Loops.NextNodeEnds | firmware/libfdt/fdt.c:243-281 | On any bytes without a property of no extent the loop ends; what it finds lies behind the start and inside the bytes, so that a run of calls ends too |
| Readers.NextProp | firmware/libfdt/fdt_ro.c:201-223 | On any bytes the property loop ends, with the property behind NOPs or the error of the scan |
| Loops.PropLoopEnds | firmware/libfdt/fdt_ro.c:201-223 | The property found lies behind the start, inside the bytes, and is accepted as a property |
| Tokens.NextTagAt | firmware/libfdt/fdt.c:165-217 | On an encoded stream every step returns the tag of the token and the offset right behind it |
| Tokens.EncAllReplace | firmware/libfdt/fdt_rw.c:83-95 | Replacing tokens replaces exactly the bytes between their offsets |
| Decode.DecodeUnique | firmware/libfdt/fdt.c:165-217 | Two descriptions of the same structure block are the same syntax |
| Decode.TreeUnique | firmware/libfdt/fdt.c:165-217 | The device tree is determined by header and bytes |
| Readers.NextNode | firmware/libfdt/fdt.c:243-281 | The next BEGIN_NODE with its depth, the end of the enclosing node when the depth falls below zero, or the error for a bad offset |
| Paths.WalkStep | firmware/libfdt/fdt.c:243-281 | From every node the walk goes to the node that comes next in preorder, with its true depth, and leaves the subtree exactly at its end |
| Traversals.WholeWalk | firmware/libfdt/fdt.c:243-281 | The run from -1 ends, and is exactly the list of the nodes of the root, each once, in stream order, with its depth |
| Scan.CloseOfNode | firmware/libfdt/fdt_wip.c:73-81 | The walk with a depth counter closes a properly nested node exactly behind it |
| Readers.NodeEndOffset | firmware/libfdt/fdt_wip.c:73-81 | The offset behind the balanced subtree, for every node; BADOFFSET for an offset that is none |
| Readers.GetName | firmware/libfdt/fdt_ro.c:300-336 | The name of the node; BADOFFSET for an offset that is none |
| Readers.SubnodeOffset | firmware/libfdt/fdt_ro.c:225-242 | The first child whose name matches, up to an '@' if the search has none; NOTFOUND if there is none |
| Scan.FindChildMeaning | firmware/libfdt/fdt_ro.c:225-242 | The child found in the tokens is the first matching child of the tree, and none is found if and only if no child matches |
| Readers.GetString | firmware/libfdt/fdt_ro.c:34-98 | The string and every error case of the lookup, for complete blobs and for blobs still being written |
| Readers.StringLookupIn | firmware/libfdt/fdt_ro.c:34-98 | In a complete blob the lookup finds a string exactly if it ends inside the strings block |
| Readers.GetProperty | firmware/libfdt/fdt_ro.c:394-422 | The first property of that name in the node, or NOTFOUND, past NOPs |
| Scan.FindPropMeaning | firmware/libfdt/fdt_ro.c:394-422 | The property token found holds the value of the first property of that name in the tree, and none is found if and only if the tree has none |
| Readers.NextPropertyOffset | firmware/libfdt/fdt_ro.c:348-354 | The next property or the reason there is none; BADOFFSET for an offset that is no property |
| Walk.FirstSubnode | firmware/libfdt/fdt.c:283-292 | The first node one level below, or NOTFOUND |
| Walk.NextSubnode | firmware/libfdt/fdt.c:294-309 | The next node on the same level, past everything inside the current one; NOTFOUND for a bad offset |
| Siblings.FirstChildIs | firmware/libfdt/libfdt.h:232-235 | The iteration over subnodes starts with child 0 |
| Siblings.NextChildIs | firmware/libfdt/libfdt.h:232-235 | From child m it goes to child m + 1, and ends behind the last one: all children are visited, in order |
| Traversals.SubnodesAre | firmware/libfdt/libfdt.h:232-235 | The run of the iteration ends, and is exactly child 0, child 1 and so on to the last one |
| Walk.GetPropByOffset | firmware/libfdt/fdt_ro.c:469-500 | Name and value of the property at an offset; BADOFFSET for an offset that is no property |
| Paths.SupernodeAtDepth | firmware/libfdt/fdt_ro.c:594-630 | The last node seen at that depth is the ancestor there; its path is a prefix of the node's path; NOTFOUND below the node; BADOFFSET, NOTFOUND or BADSTRUCTURE for offsets off the nodes, at the end of the root and behind it |
| Paths.ParentOffset | firmware/libfdt/fdt_ro.c:644-652 | The result is n if and only if the node is a child of n in the tree; the root has no parent; the same errors off the nodes |
| Traversals.ParentVisits | firmware/libfdt/fdt_ro.c:644-652 | The parent of m is n if and only if the subnode iteration of n, which ends, visits m |
| PathStrings.GetPath | firmware/libfdt/fdt_ro.c:542-592 | The path is written with its terminator if it fits, NOSPACE otherwise, whatever did not fit on other branches before; the buffer is read in front of its start if and only if the offset is that of the end of the root or larger |
| PathStrings.NamesInTree | firmware/libfdt/fdt_ro.c:542-592 | The names written are those along the path in the device tree |
| PathLookups.PathOffset | firmware/libfdt/fdt_ro.c:250-293 | An absolute path leads to the node found by going to the first matching child for each component; runs of slashes count as one |
| PathLookups.SplitPlain | firmware/libfdt/fdt_ro.c:273-290 | The components that are looked up are not empty and hold no slash |
| PathLookups.SplitRun | firmware/libfdt/fdt_ro.c:276-280 | A second slash behind a slash, anywhere in the path, does not change its components |
| PathLookups.PathRoundTrip | firmware/libfdt/fdt_ro.c:250-298 | Looking up a node's own path finds it again if and only if each node on the way is the first match among its siblings |
| PathLookups.ApartMatches | firmware/libfdt/fdt_ro.c:13-32 | It is if no sibling name matches a later one |
| Memory.Memmove | firmware/string.c:132-156 | For any overlap the destination gets the old source bytes and all else stays |
| Memory.Memcmp | firmware/string.c:158-172 | Zero if and only if the bytes are equal, otherwise the difference of the first bytes that differ |
| Memory.Memchr0 | firmware/string.c:174-186 | The first NUL of the range, or none |
| Splicing.SpliceBytes | firmware/libfdt/fdt_rw.c:54-68 | Exact error cases, and the bytes behind the gap moved |
| Splicing.SpliceStruct | firmware/libfdt/fdt_rw.c:83-95 | Head, strings and the structure around the gap are kept; NOSPACE exactly if the data would not fit |
| Strings.FindAddString | firmware/libfdt/fdt_rw.c:127-153 | The name is found, also as the end of another string, or appended if there is room |
| Editor.SetPropPlaceholder | firmware/libfdt/fdt_rw.c:258-274 | The property exists with the given length, as the first one if it is new; exact NOSPACE condition |
| Editor.AddProperty | firmware/libfdt/fdt_rw.c:202-233 | A new first property; on NOSPACE a name added to the strings is taken back and every live byte is as before |
| Editor.SetProp | firmware/libfdt/fdt_rw.c:276-289 | Success changes exactly that property of that node; fails exactly if the blob would grow beyond its size, and then changes nothing |
| Editor.AppendProp | firmware/libfdt/fdt_rw.c:291-316 | The value is the old one followed by the new bytes, or the new bytes in a new property; exact NOSPACE condition |
| Editor.PutTwice | firmware/libfdt/fdt_rw.c:276-289 | Setting a property again is as if only the last value had been set |
| Phandles.SetPropInplacePartial | firmware/libfdt/fdt_wip.c:13-31 | Only the named bytes of the value change; exact error cases |
| Phandles.PartialWraps | firmware/libfdt/fdt_wip.c:24-29 | An index whose sum with the length wraps passes the space test although the write lies behind the value |
| Phandles.SetPropInplace | firmware/libfdt/fdt_wip.c:33-49 | The value is replaced if it has the same length, NOSPACE otherwise |
| NodeEditor.DelProp | firmware/libfdt/fdt_rw.c:318-331 | The first property of that name is gone and nothing else has changed; its bytes are free, and the offsets up to the node stay good |
| NodeEditor.NopProperty | firmware/libfdt/fdt_wip.c:59-71 | The same tree as after deleting it; every other byte and every node offset is as before |
| NodeEditor.DelNode | firmware/libfdt/fdt_rw.c:382-394 | The node with all below it is gone and nothing else has changed; all its bytes are free, and the offsets in front of it stay good |
| NodeEditor.NopNode | firmware/libfdt/fdt_wip.c:83-94 | The same tree as after deleting it; all bytes outside the node are as before and all other nodes keep their offsets |
| NodeEditor.NopKeepsNodes | firmware/libfdt/fdt_wip.c:51-57 | Outside a blanked region an offset is a node offset if and only if it was one |
| NodeEditor.SetName | firmware/libfdt/fdt_rw.c:235-256 | The node has the new name; exact NOSPACE condition, and BADOFFSET for an offset that is no node |
| Children.AddSubnode | firmware/libfdt/fdt_rw.c:333-375 | A new empty first child, whose offset is returned; EXISTS exactly if a search for the name would find a child, NOSPACE exactly if it does not fit |
| Edits.ReplaceKeepsOffsets | firmware/libfdt/fdt_overlay.c:584-595 | Offsets held across an edit stay good if the edited node does not lie in front of them |
| Structure.ReplaceMeaning | firmware/libfdt/fdt_rw.c:184-394 | Replacing a node in the syntax replaces the node at its place in the tree and nothing else |
| Reservations.Put64Bytes | firmware/libfdt/libfdt_env.h:74-77 | Byte k of the eight bytes stored for a 64-bit number w is w / 256^(7-k) modulo 256 |
| Reservations.Get64Bytes | firmware/libfdt/libfdt.h:154-166 | Eight bytes are read as the sum of each times its power of 256, the first one times 256^7 |
| Reservations.EntryOfPage | firmware/libfdt/fdt_rw.c:167-168 | The sixteen bytes of the entry (0x80000000, 0x1000) |
| Reservations.RsvRoundTrip | firmware/libfdt/fdt_sw.c:188-217 | Reservations that were written are read back up to the first one of size 0 |
| RsvEditor.AddMemRsv | firmware/libfdt/fdt_rw.c:155-170 | The entry comes last in the list, unless its size is 0, with these sixteen bytes behind the entries there were; the tree is the same |
| RsvEditor.DelMemRsv | firmware/libfdt/fdt_rw.c:172-182 | Entry n is gone, the others are kept in order and the blocks behind move up by sixteen bytes; NOTFOUND exactly if there is no entry n |
| RsvEditor.RsvReplaced | firmware/libfdt/fdt_rw.c:70-81 | Replacing the bytes of entries replaces those entries |
| Packing.Pack | firmware/libfdt/fdt_rw.c:487-500 | Reservations, tree and strings are kept, there are no gaps, and packing again changes nothing |
| Packing.PackBlocks | firmware/libfdt/fdt_rw.c:396-417 | The three blocks arrive unchanged, moved on the spot or to another place |
| Packing.OpenInto | firmware/libfdt/fdt_rw.c:419-485 | For any placement of the buffers: exact NOSPACE condition, and the blocks in the right order in the new buffer; if they were so before, every byte and every header word but version and size is kept, otherwise the boot CPU is if the buffers are apart |
| Packing.OpenedSame | firmware/libfdt/fdt_rw.c:419-485 | The opened blob is well formed and holds the same tree and reservations, in whatever order the blocks were |
| Writer.Create | firmware/libfdt/fdt_sw.c:109-141 | Error cases, and the initial state without reservations |
| Writer.AddReservemapEntry | firmware/libfdt/fdt_sw.c:188-206 | One more entry, with its sixteen bytes in big-endian order behind the others, or NOSPACE with nothing changed |
| Writer.FinishReservemap | firmware/libfdt/fdt_sw.c:208-217 | The list reads back, up to the first entry of size 0 |
| Writer.BeginNodeCall | firmware/libfdt/fdt_sw.c:219-234 | One more call has been written, structure and strings stay apart; exact NOSPACE condition |
| Writer.EndNodeCall | firmware/libfdt/fdt_sw.c:236-248 | The same for the end of a node |
| Writer.PropertyPlaceholder | firmware/libfdt/fdt_sw.c:293-323 | The same for a property; when there is no room, a name just added is taken back and all live bytes are as before |
| Writer.PropertyCall | firmware/libfdt/fdt_sw.c:325-335 | The same with its value |
| Writer.StringPrepended | firmware/libfdt/fdt_sw.c:250-265 | A string added in front changes no name that was emitted before |
| Writer.StringWraps | firmware/libfdt/fdt_sw.c:250-265 | The test for room passes if and only if the string fits, or is larger than all that lies below the end of the buffer; then it is copied in front of the buffer and the next test for room passes too |
| Writer.EmittedName | firmware/libfdt/fdt_ro.c:70-84 | While writing, fdt_get_string finds the name of every emitted property through its negative offset |
| Writer.Resize | firmware/libfdt/fdt_sw.c:148-186 | For any overlap of the two buffers head and strings arrive unchanged and nothing outside the new buffer changes |
| Writer.ResizeKeeps | firmware/libfdt/fdt_sw.c:148-186 | The writer's state and the calls written so far are the same after a resize |
| Finish.RelocCalls | firmware/libfdt/fdt_sw.c:359-372 | Relocation keeps every name, also those shared with the end of another string |
| Finish.ParseNodes | firmware/libfdt/fdt_sw.c:337-384 | Tokens that stand for the calls of a tree are a well-nested structure with exactly that tree |
| Finish.FinishBlob | firmware/libfdt/fdt_sw.c:337-384 | Exact NOSPACE condition; if the calls were those of a tree, the complete blob is well formed and holds that tree |
| RoundTrip.WriteBlob | firmware/libfdt/fdt_sw.c:109-384 | If all calls in tree order succeed, the blob holds exactly that tree and the reservations up to the first of size 0; they do exactly if the plan of sizes and strings fits, and a call would write in front of the buffer exactly where the plan says so |
| RoundTrip.BlobFits | firmware/libfdt/fdt_sw.c:87-106 | The plan fits if and only if the blob that it leaves does: header, reservations, the nodes and properties of the tree, the strings with shared names once, and the end tag |
| RoundTrip.RoomEnough | firmware/libfdt/fdt_sw.c:87-106 | It does if there is room for every name on its own, and exactly then if names are not shared |
| RoundTrip.OutOfTurn | firmware/libfdt/fdt_sw.c:33-100 | BADSTATE for reservations once the structure has begun, for nodes and properties before that, and for both once the blob is complete |
| RoundTrip.LongNameOutside | firmware/libfdt/fdt_sw.c:250-265 | A name of 1000 bytes in a buffer of 200: both tests for room pass with wrapped differences, and the string goes in front of the buffer |
| RoundTrip.WrittenPasses | firmware/libfdt/fdt_check.c:13-93 | fdt_check_full returns 0 on every well-formed blob with one nameless root, whatever lies behind its buffer |
| RoundTrip.WriteAndCheck | firmware/libfdt/fdt_check.c:13-93 | Writing a tree and checking the blob: the writer succeeds exactly if the plan fits, and then the validator does |
| RoundTrip.CreateEmptyTree | firmware/libfdt/fdt_empty_tree.c:13-38 | Succeeds exactly with 80 bytes or more, and leaves a tree of one nameless empty node and no reservations |
| Check.HeaderCheckExact | firmware/libfdt/fdt.c:52-141 | The header passes exactly if the blocks lie behind it and inside the blob; otherwise BADMAGIC, BADVERSION or TRUNCATED, each exactly when |
| Check.NumMemRsv | firmware/libfdt/fdt_ro.c:160-199 | The number of entries in front of the first one of size 0, or TRUNCATED if the list does not end inside the blob |
| Check.WalkExact | firmware/libfdt/fdt_check.c:34-92 | On any bytes the walk succeeds if and only if the tags are balanced, with at most one root without a name and nothing but FDT_END behind it, and all names resolve; the order of properties and subnodes does not matter |
| Check.AcceptedExact | firmware/libfdt/fdt_check.c:34-92 | The bytes begin with the encoding of nested tokens if and only if the walk succeeds and no length it meets is above INT32_MAX |
| Check.LongLengthPasses | firmware/libfdt/fdt_check.c:82-87 | A block with the length 0xfffffffc that passes and is no encoding of tokens |
| Check.CheckFull | firmware/libfdt/fdt_check.c:13-93 | The validator returns 0 if and only if header and reservations are in order and the tags in the structure block are balanced; that is a structure of tokens exactly if no length is above INT32_MAX |
| Overlay.ApplyProperties | firmware/libfdt/fdt_overlay.c:563-582 | Every property of the overlay node overrides or extends those of the target; fails if and only if one of them does not fit, and then exactly those in front of it have been merged |
| MergeTrees.FitsExact | firmware/libfdt/fdt_overlay.c:557-602 | The edits of a merge fit if and only if after none of them the growth so far exceeds the space there was: the padded new length minus the old one for a property that is there, a whole property and its name, where that is new, otherwise, a node only where no child matches |
| MergeTrees.MergeEnough | firmware/libfdt/fdt_overlay.c:557-602 | They do if there is the room that the overlay node takes when nothing in it is there yet |
| MergeTrees.AfterAll | firmware/libfdt/fdt_overlay.c:557-602 | After as many edits as the overlay has properties and nodes the merge is complete |
| MergeSpace.OverridesFit | firmware/libfdt/fdt_overlay.c:563-582 | An overlay that only overrides properties with values of no larger padded length, in children that are there, fits into a blob without any free space and adds no string |
| MergeSpace.MergeGrows | firmware/libfdt/fdt_overlay.c:557-602 | The growth of all edits together is that of the tree and of the strings block |
| Overlay.ApplyNode | firmware/libfdt/fdt_overlay.c:557-602 | Success computes the recursive merge of the trees at the target, whose offset stays good throughout; it fails, with NOSPACE, if and only if one of the edits does not fit into the space that those in front of it have left, and then the blob is well formed and holds exactly those |
| Overlay.LiftEdit | firmware/libfdt/fdt_overlay.c:584-595 | An edit of a child is an edit of the node that keeps the node's offset |
| Merging.PropsTwice | firmware/libfdt/fdt_overlay.c:563-582 | Merging the same properties again changes nothing, repeated names included |
| Merging.MergeTwice | firmware/libfdt/fdt_overlay.c:557-602 | Merging an overlay a second time changes nothing, for all bases and all properties, if and only if the names in the overlay are stable |
| Merging.LeavesStable | firmware/libfdt/fdt_overlay.c:584-595 | For children without subnodes this is: no later name, not seen before, extends an earlier one by '@' |
| Merging.MergeTwiceDiffers | firmware/libfdt/fdt_overlay.c:584-595 | The overlay with the children x and x@, merged into an empty node once and twice, with both results |
| Phandles.GetPhandleOf | firmware/libfdt/fdt_ro.c:508-523 | The phandle of a node, 0 for none |
| Phandles.PhandleAddOffset | firmware/libfdt/fdt_overlay.c:116-139 | The cell is increased in place; NOTFOUND without the property, BADPHANDLE for another length than 4, NOPHANDLES exactly if the unbounded sum is 0xffffffff or more |
| Phandles.AdjustNodePhandles | firmware/libfdt/fdt_overlay.c:156-177 | Succeeds if and only if every phandle of the subtree can be increased, and then renumbers the whole subtree and nothing else |
| Phandles.AdjustExact | firmware/libfdt/fdt_overlay.c:116-177 | The renumbering of a tree succeeds if and only if at every path each of the two properties is absent, or is a cell whose sum with delta is below 0xffffffff; otherwise it reports what is wrong with the first that is not, in preorder |
| Phandles.KidsShifted | firmware/libfdt/fdt_overlay.c:156-177 | Every node that has a phandle has the old one plus delta, without wrap-around |
| Phandles.Renumbered | firmware/libfdt/fdt_overlay.c:116-199 | With delta the largest phandle of the base and overlay phandles of at least 1, no renumbered phandle is one of the base, and they are distinct if and only if they were |
| PhandleSearch.NextNodeAnywhere | firmware/libfdt/fdt.c:243-281 | Without a depth the walk goes to the next BEGIN_NODE in the stream, past the ends of nodes |
| PhandleSearch.FindMaxPhandle | firmware/libfdt/fdt_ro.c:114-140 | The largest phandle of any node of the blob, which bounds every phandle of the tree; 0 if there is none |
| PhandleSearch.NodeOffsetByPhandle | firmware/libfdt/fdt_ro.c:681-704 | The first node in preorder with that phandle; NOTFOUND exactly if no node has it |
| References.UpdateLocalNodeReferences | firmware/libfdt/fdt_overlay.c:220-306 | Success applies all fixups to the tree node and changes nothing outside its subtree; it fails exactly if they cannot all be applied |
| Designations.CellsFixed | firmware/libfdt/fdt_overlay.c:220-306 | After the fixups of a whole tree, in every property of every node each cell listed once is increased by delta, one listed n times n times, all other bytes are as before, and so are names, lengths and children |
| Designations.StillDesignates | firmware/libfdt/fdt_overlay.c:179-330 | In the tree after both passes a cell listed once is the phandle of a node if and only if it was before |
| Designations.Designates | firmware/libfdt/fdt_overlay.c:179-330 | Where a cell listed any number of times points afterwards; it still designates its node exactly if n times delta is delta modulo 2^32 |
| Designations.PhandleListedFails | firmware/libfdt/fdt_overlay.c:233-282 | Fixups of the overlay that list a phandle are rejected, as the renumbering has moved the offset that they hold |
| Designations.PhandleListedApart | firmware/libfdt/fdt_overlay.c:254-282 | Fixups from elsewhere that list the phandle of a node shift it once more each time |
| Designations.TwoNames | firmware/libfdt/fdt_overlay.c:285-303 | Fixup children x and x@1 that both mean the child x@1 increase its cell twice |
| Designations.TwoProperties | firmware/libfdt/fdt_overlay.c:229-282 | Fixup properties of the same name increase the cell as often |
| Passes.FixExact | firmware/libfdt/fdt_overlay.c:220-306 | The fixups can be applied if and only if each node that they are for is found and holds each property and each cell that they list; otherwise BADOVERLAY |
| Passes.RelocationExact | firmware/libfdt/fdt_overlay.c:179-330 | There is a tree after both passes if and only if every phandle can be increased and, where there is a child `__local_fixups__`, all that it lists is there and, unless delta is 0, it lists no phandle |
| Passes.NoFixups | firmware/libfdt/fdt_overlay.c:325-334 | Without such a child that is whether the renumbering succeeds |
| Passes.RelocateReferences | firmware/libfdt/fdt_overlay.c:179-330 | Both passes on a blob succeed exactly then, without such a child whenever the renumbering does, and give that tree; otherwise the error is that of the first pass that fails |
| Forms.FormOffsets | firmware/libfdt/fdt_wip.c:13-31 | Writing inside values keeps every node offset and every path |
| Forms.FarNode | firmware/libfdt/fdt_overlay.c:229-303 | An edit of values in one node leaves every node that is not around it as it was |
| Relocation.GuardsExact | firmware/head.S:120-148 | The guards stop exactly the copies that would overwrite the lottery word, the status word or the copying code |
| Relocation.Relocate | firmware/head.S:106-155 | For any overlap: it hangs exactly in those cases, and otherwise the image is at the run address |
| Relocation.Relocated | firmware/head.S:106-155 | The copy is the exact original image, the words and the code still needed are untouched |
| Harts.StepInv | firmware/head.S:94-249 | Every step of every hart keeps the protocol invariant |
| Harts.LeaderMoves | firmware/head.S:100-230 | Every step of the winner keeps its part: copied words, status, spin word, code, and what it has prepared for zstage_main |
| Harts.BootSafety | firmware/head.S:94-249 | In every run exactly one hart wins; no other enters the relocated code before the image is complete, and none leaves the spin loop before zstage_main returned or for another address than next_run_addr |
| Harts.SameWinner | firmware/head.S:94-99 | In a run the winner is the same hart from the first ticket on |
| Harts.NeverStuck | firmware/head.S:94-249 | In every reachable state every hart that has not left can take a step |
| Harts.MainEntered | firmware/head.S:176-210 | In every run, at the first moment at which the winner is in zstage_main, the bss of the running image is zero, the boot argument is the register a1 of power-on, the load address is saved, and every other word but the lottery and the status is that of the linked image |
| Harts.ReachesMain | firmware/head.S:94-210 | However the steps interleave, the winner has called zstage_main after at most 8 steps of its own, one for each word of the bss and two for each word of the image |
| Harts.AllLeave | firmware/head.S:156-249 | Once the others are released, with a next_run_addr that is not 0, each of them has left for the next stage after at most four steps of its own |

## Left out

- Device drivers, `console.c`, `main.c` and the makefiles: device input and output and plumbing.
- String lists, `strcpy` and `strncpy`, address translation and `fdt_appendprop_addrrange`: not needed by the core, and not correct in this code.
- Aliases in `fdt_path_offset`, `fdt_generate_phandle` and the searches by property value or compatible string.
- Blob versions below 17, the `can_assume` variants and `fdt_strerror`.
- Overlay fixups by name, symbols, the choice of the target of a fragment and the sequence of `fdt_overlay_apply`: the renumbering, the local references and the merge are modelled one by one.
- Weak memory and instruction fetch in `head.S`, and overlapping load and run ranges once more than one hart runs.
- The hart id, the argument registers and the device tree address handed to the next stage.
- Editor.AppendProp: the new bytes are written through the same resize as `fdt_setprop`, where the source repeats the splice; the bytes are the same.
- Harts.BootSafety: guards and copy act on words of 8 bytes; the loads of the winner that only fill registers for `zstage_main` and the next stage are not steps.
- PathStrings.GetPath: does not cover names that hold a slash, and stops where the source leaves the caller's buffer.
- Paths.SupernodeAtDepth: does not cover blobs with a node right behind the END_NODE of the root.
- Paths.ParentOffset: the same.
- RoundTrip.WriteBlob: stops where the source would write in front of the buffer and go on.
- PathLookups.PathOffset: does not cover paths that begin with an alias.
- Phandles.SetPropInplacePartial: does not cover an index whose sum with the length wraps, where the source writes behind the value.
- References.UpdateLocalNodeReferences: does not cover listed offsets from 0xfffffffc on, where the same sum wraps, and fixups that list themselves.
- Writer.PropertyPlaceholder: does not cover a string to be added that is, with the strings before it, larger than the total size, where the source writes in front of the buffer.
- Writer.PropertyCall: the same.
- Check.CheckFull: does not cover versions below 17.
- Packing.OpenInto: does not cover versions below 17 and headers that `fdt_check_header` rejects, and where blocks are reordered between overlapping buffers it does not follow the boot CPU number, which the source then reads from the header after the move.
