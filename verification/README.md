# Extent tree and file I/O: a verified model

This project models, in Dafny, the two parts of the repository that carry an
algorithm of their own, and proves what they keep.

* **The extent tree** (`port/lwext4_extent.c`): the B+-tree that maps the logical
  blocks of one inode to physical ones, in the on-disk format of ext4. The root has
  four entries inside the inode, every other node is one block, and the tree is at
  most five levels above its leaves deep.
* **The file layer** (`port/esp_lwext4.c`): appending through handles that cache a
  stale size, growth by writing zeros, positioned reads and writes, and the path
  predicates that walk a string.

## How the tree is modelled

`ExtentTrees.ExtentTree` is the inode together with the block store: `root`, a
mutable map `blocks` from block number to node, the set `owned` of blocks allocated
to the inode, the inode's `dirty` flag and whether a journal `transaction` is
active. Its methods change these fields step by step, one device write at a time, as
the C functions of the same names do, with the same branches and error returns.

Ghost fields tie the state to its meaning. `tree` is the unfolding of the store
(`Trees.Tree`); `Trees.RepUnique` shows that the store leaves no choice about it.
`pending` holds blocks that are allocated and not part of the tree at that moment.
`ledger` records what the allocator has answered: how often it refused and with what
last, what it handed out, and how often another block than the goal. `runs` records how
often a run ended at a block that does not continue it, and the last run. With them a
contract says that a call fails only because of the allocator and with the allocator's
own error, maps less than it could only for want of contiguous blocks, and asks for
nothing it does not need. `Valid()` says:

* every node has a good header, its checksum, and room for exactly one block of
  entries (`Trees.NodeOk`);
* leaves are all at one depth, no external node is empty, and every index entry
  holds its child's block and exactly its child's first key (`Trees.Good`);
* every node is stored in its own block (`Store.Stored`);
* read from left to right the extents are non-empty, disjoint and increasing, and
  lie inside the volume (`Mapping.Listing`);
* nodes, mapped data and pending blocks, counted with multiplicity, are exactly the
  allocated blocks (`Store.Accounted`).

The logical map is `MapOf(Flat(tree))`, from logical block to physical block and
unwritten flag. Every operation is proved against a plain operation on that map:
lookup reads it, create adds a run of fresh blocks, removal subtracts a range.
`Runs.Replay` puts this together for any sequence of calls, whatever the allocator
refuses on the way.

`NodeBytes` and `LeafBytes` go below this: they show that the shifting, copying,
clearing, compacting and checksumming of a node's memory, byte by byte in place, does
to the node those bytes hold what the tree model says, and leaves the checksum word
and everything behind it alone until it is recomputed. The collapse of an emptied root
rewrites its header only, so its unused entries read in the other layout from then on;
the tree model carries that too (`Nodes.CollapseNode`).

Files, from the bottom up: `Ondisk`, `Search`, `Mapping`, `Trees`, `Nodes`,
`NodeBytes`, `Splitting`, `Density`, `Store`, `Updates`, `Inserting`, `Removing`,
`LeafBytes`, `ExtentTree`, `Runs`; and, apart from these, `FileIo` and `Paths`.

## Where the code needs a condition

Seven statements hold only under a condition, and are proved with the condition on
one side of an "if and only if":

* the length encoding is faithful exactly up to 32768 written or 32767 unwritten
  blocks (`Ondisk.EncodeRoundTrip`);
* the 32-bit containment test agrees with real containment exactly when the extent
  does not end at 2^32, an end that the entry scan accepts (`Ondisk.CoversTestExact`);
* a merge accepted by the merge test means the union exactly when the left extent
  does not end at 2^32 (`Ondisk.MergePreservesMeaning`);
* a write at a remembered position is an append exactly when that position is the
  inode's real end, which is why an append refreshes the size first
  (`FileIo.AppendsOnlyAtEnd`);
* some block of an extent that the entry scan accepts passes the containment test
  exactly when the extent does not end at 2^32 (`Runs.BoundaryUnfound`);
* a positioned read returns all there is at the offset, up to the limit, whenever the
  core is willing to transfer that much, exactly when the offset is at or past the
  inode's end, or the handle's cached size does not lag behind, or the whole request
  lies within it (`FileIo.StaleReadWhole`). It fails in two ways: between the cached
  size and the inode's end it is refused with EINVAL (`FileIo.StaleReadRefused`), which
  is the part that `FileIo.StaleReadExact` characterises; and across or at the cached
  size, when the core does not refresh it, it succeeds with too little, or with nothing
  as at an end of file (`FileIo.StaleReadEmpty`);
* a positioned write whose gap could be filled goes ahead exactly when, for an offset
  within the file, the offset is within the handle's cached size, and, for an offset
  past the end, the handle's position is not beyond the offset
  (`FileIo.StaleWriteWhole`, with both kinds of refusal in `FileIo.StaleWriteRefused`).

The trees of the model therefore keep every extent's end at or below 2^32 - 1, and a
create must leave room below that end for the longest run it may map. What the code
does at the boundary is shown by five members of `Runs`. A block mapped at 0xFFFFFFFF
passes every check (`LastBlockPasses`) and reads as unmapped (`LastBlockUnmapped`). So
the next create there takes the block for neither mapped nor adjacent and puts a second
entry behind the first (`SecondCreate`); from then on every lookup, of any block of the
file, ends in EIO (`LastBlockTwice`). One create of two or more blocks there has the
same effect at once (`BeyondLastBlock`).

## The file layer

`FileIo.Handle` is one open file with its own cached size and position. What the
lwext4 core does for a handle is stated as the contract of four small methods, taken
from the repository's comments: `Fseek` refuses positions beyond the cached size,
`Fwrite` may stop short with or without an error but leaves what it wrote, `Fread`
may stop short, `Ftruncate` only shrinks. What is reported, how many bytes get
through, and whether the core brings the handle's cached size up to date, is an input
to each of them (`FileIo.Outcome`), so every theorem is about all patterns of short
transfers and errors, and about handles that lag behind the inode. (`doc/CAVEATS.md` notes that the pinned
core may even report success after an error; the reported result is therefore not
tied to the amount.) On this the layer's own functions are proved against plain
functions on byte sequences, `Pwrite`, `Padded` and `Resized`, which are in turn
characterised byte by byte, and against `Growth`, which says how far a growth gets.

## Model

| member | source | states |
|---|---|---|
| Ondisk.EncodeRoundTrip | port/lwext4_extent.c:183-201 | storing a length with its flag and reading it back gives both again exactly when the length is at most 32768, or 32767 for an unwritten extent |
| Ondisk.ScanOkExact | port/lwext4_extent.c:325-332 | the scan accepts an extent exactly when it has blocks, every logical one fits 32 bits and every physical one is in the volume |
| Ondisk.CoversTestExact | port/lwext4_extent.c:544-548 | the wrapping containment test is right for every 32-bit block exactly when the extent does not end at 2^32 |
| Ondisk.CoversTestWraps | port/lwext4_extent.c:544-548 | a one-block extent at block 0xFFFFFFFF passes the entry scan and fails the containment test for its own block |
| Ondisk.MergePreservesMeaning | port/lwext4_extent.c:558-579 | two extents the merge test accepts never overflow the 16-bit length, and the merged extent maps exactly the blocks of both, at the same places with the same flag, exactly when the first does not end at 2^32 |
| Ondisk.TailFits | port/lwext4_extent.c:1569-1574 | for every power-of-two block size from 1024 to 65536 a block has room for 84 to 5460 entries and four more bytes behind them |
| Search.BinsearchExtent | port/lwext4_extent.c:220-246 | never leaves the live entries, never underflows, and on rising keys selects the rightmost entry not above the block, or entry zero |
| Search.BinsearchIdx | port/lwext4_extent.c:248-279 | the same for index nodes; fails exactly on an empty one |
| Search.PosIs | port/lwext4_extent.c:220-279 | the selected position is the only one with that property |
| Search.EntryInsertPos | port/lwext4_extent.c:725-735 | the first position whose key is above the given one |
| Search.HeaderExact | port/lwext4_extent.c:298-311 | the header check accepts exactly the nodes whose counted entries lie inside an array that lies inside the root or the block |
| Search.SelectedAlone | port/lwext4_extent.c:355-413 | an extent that passes the local check shares no block with its neighbours, an index entry no key |
| Search.AllSelected | port/lwext4_extent.c:313-413 | the local checks all pass exactly when every entry is sound and the whole node is in order, any two entries compared |
| Search.ValidateEntries | port/lwext4_extent.c:313-413 | the scan of a whole node accepts it exactly when the local check accepts every single position |
| Trees.LookupFlat | port/lwext4_extent.c:439-520 | descending by separators ends at the leaf, and at the position in it, that a search of the whole left-to-right list of extents selects |
| Trees.RepUnique | port/lwext4_extent.c:439-520 | root and store determine the tree, so its map is a function of what is on disk |
| Trees.ReplaceGood | port/lwext4_extent.c:1235-1253 | swapping a subtree for one with the same block, depth and first key keeps the whole tree well formed |
| Mapping.CutMap | port/lwext4_extent.c:1257-1347 | trimming extents by a logical range subtracts that range from the map; survivors keep physical blocks and flags |
| Mapping.CutCut | port/lwext4_extent.c:1744-1793 | removing a range piece by piece from the left is removing it at once |
| Mapping.TrimData | port/lwext4_extent.c:1204-1210 | the physical blocks an extent keeps and the run given back make up the extent's blocks, each once |
| Mapping.InsertMap | port/lwext4_extent.c:1028-1106 | an extent put into a gap extends the map by its own blocks and changes nothing else |
| Mapping.MergeLeftMap | port/lwext4_extent.c:1136-1146 | growing an extent to the right by a new one does the same to the map |
| Mapping.MergeRightMap | port/lwext4_extent.c:1148-1166 | growing an extent to the left by a new one does the same to the map |
| Mapping.MergeExact | port/lwext4_extent.c:558-579 | below the wrap the merge test accepts two scanned extents exactly when the first ends before the second starts and some entry with a 16-bit length maps what both map |
| Nodes.SealVerifies | port/lwext4_extent.c:1554-1579 | setting the checksum of a full-capacity node is never refused and makes verification pass, for every block size |
| Nodes.InsertEntries | port/lwext4_extent.c:784-794 | shifting, storing and counting inserts exactly one entry at the position |
| Nodes.RemoveEntries | port/lwext4_extent.c:1413-1422 | closing the gap, clearing and uncounting removes exactly the entry at the position |
| NodeBytes.SlotRoundTrip | port/lwext4_extent.c:129-181 | an entry stored and loaded again is the same entry, in the extent and in the index layout |
| NodeBytes.SlotOnto | port/lwext4_extent.c:129-181 | twelve bytes loaded and stored again are the same bytes, in both layouts |
| NodeBytes.HeaderRoundTrip | port/lwext4_extent.c:111-127 | a header stored and loaded again is the same header |
| NodeBytes.HeaderOnto | port/lwext4_extent.c:111-127 | header bytes loaded and stored again are the same bytes |
| NodeBytes.HeaderLayout | port/lwext4_extent.c:111-127 | which byte of a header belongs to which field, and where in it |
| NodeBytes.SlotLayout | port/lwext4_extent.c:129-181 | the same for an entry, in both layouts |
| NodeBytes.HeaderLoad | port/lwext4_extent.c:111-118 | reads the header the bytes hold |
| NodeBytes.HeaderStore | port/lwext4_extent.c:120-127 | changes the first twelve bytes of the buffer, and no others, to the header's |
| NodeBytes.EntryLoad | port/lwext4_extent.c:584-614 | reads the entry the node held by the buffer has at the position |
| NodeBytes.EntryStore | port/lwext4_extent.c:137-159 | changes twelve bytes at the offset, and no others, to the entry's |
| NodeBytes.InsertEntry | port/lwext4_extent.c:1084-1092 | moving memory, storing the entry and the header in place gives the buffer of the node with the entry inserted; nothing behind the entry array is touched |
| NodeBytes.RemoveEntry | port/lwext4_extent.c:1413-1422 | the in-place removal gives the buffer of the node without the entry; nothing behind the entry array is touched |
| NodeBytes.ShortenTo | port/lwext4_extent.c:898-901 | the in-place shortening keeps the first entries and zeroes the others; nothing behind the entry array is touched |
| NodeBytes.CopyEntries | port/lwext4_extent.c:859-871 | a zeroed block that takes a header and a stretch of another node's entries holds a node with just those entries |
| NodeBytes.ReplaceEntry | port/lwext4_extent.c:1212-1233 | overwriting one entry in place changes that entry only |
| NodeBytes.TreeInitBytes | port/lwext4_extent.c:1581-1595 | the sixty bytes in the inode, byte by byte; they hold an empty leaf with four places |
| NodeBytes.LayoutChanged | port/lwext4_extent.c:129-159 | twelve bytes stored as an index entry read, in the layout of an extent, as the entry the collapse leaves |
| NodeBytes.CollapseInPlace | port/lwext4_extent.c:1453-1460 | writing depth zero into the header of an index root gives the buffer of the leaf whose entries are the old bytes in the other layout; nothing but the header is touched |
| NodeBytes.GrowRootInPlace | port/lwext4_extent.c:1011-1023 | header, clearing and one stored index entry give the buffer of a root one level higher with that single entry |
| NodeBytes.BytesAre | port/lwext4_extent.c:1541-1552 | the bytes up to the tail are determined by the node, so the checksum over bytes is a function of header and entries |
| NodeBytes.SetExtentBlockChecksum | port/lwext4_extent.c:1554-1579 | EINVAL exactly for a bad magic, EIO exactly for a tail outside the block, both changing nothing; otherwise the four bytes of the checksum word, and no others, become what verification expects |
| NodeBytes.VerifyExtentBlockChecksum | port/lwext4_extent.c:417-437 | accepts a buffer exactly when the node it holds has the right magic, a tail inside the block and the right checksum |
| NodeBytes.Reseal | port/lwext4_extent.c:902-907 | the last step of every change: the checksum of a full-capacity node is set without refusal and the buffer passes verification |
| NodeBytes.InsertAndSeal | port/lwext4_extent.c:1084-1098 | one whole insertion into an external node succeeds and leaves a buffer that holds the new node and passes verification |
| NodeBytes.RemoveAndSeal | port/lwext4_extent.c:1413-1438 | the same for one removal |
| NodeBytes.ShortenAndSeal | port/lwext4_extent.c:898-907 | the same for the left half of a split |
| NodeBytes.CopyAndSeal | port/lwext4_extent.c:859-885 | the same for the right half of a split |
| NodeBytes.ReplaceAndSeal | port/lwext4_extent.c:1212-1233 | the same for one overwritten entry |
| LeafBytes.TrimInPlace | port/lwext4_extent.c:1280-1351 | the compaction loop, loading and storing within one buffer, leaves a leaf whose entries are cut by the range; nothing behind the entry array is touched |
| LeafBytes.SplitInPlace | port/lwext4_extent.c:1512-1522 | shifting by one and storing prefix and suffix gives the buffer of the leaf with the extent replaced by both; nothing behind the entry array is touched |
| LeafBytes.TrimAndSeal | port/lwext4_extent.c:1280-1368 | the compaction with the new checksum leaves a buffer that passes verification |
| LeafBytes.SplitAndSeal | port/lwext4_extent.c:1512-1536 | so does the store of prefix and suffix |
| Splitting.SplitGood | port/lwext4_extent.c:808-908 | splitting a full child under a parent with room keeps depth, non-emptiness and exact keys |
| Splitting.SplitContents | port/lwext4_extent.c:808-908 | a split changes neither the list of extents nor the blocks used, except for the one new block |
| Splitting.SplitInvisible | port/lwext4_extent.c:885-907 | for every block the descent finds the same entry before the split, while both nodes hold the moved entries, and after |
| Splitting.GrownGood | port/lwext4_extent.c:952-1026 | pushing the root down keeps the tree well formed and its contents the same |
| Density.SplitRound | port/lwext4_extent.c:934-949 | a split leaves one node fewer on the path that could still fill up within the remaining rounds |
| Density.GrowRound | port/lwext4_extent.c:921-933 | growth adds no such node |
| Density.DenseSplit | port/lwext4_extent.c:861-899 | after a split every node that is not alone on its level is still at least half full |
| Density.DenseCount | port/lwext4_extent.c:861-899 | a subtree of half-full nodes of depth d holds at least (capacity/2)^(d+1) extents |
| Density.DenseCanGrow | port/lwext4_extent.c:964-966 | with blocks of 2048 bytes and up a half-full tree with a full root is not yet at the greatest depth |
| Store.GoodPassable | port/lwext4_extent.c:439-538 | a lookup of any block passes every header, checksum and entry check on a valid tree |
| Store.SiblingNext | port/lwext4_extent.c:661-683 | when nothing is left to the right below, the next sibling's subtree starts with the next extent |
| Updates.SplitState | port/lwext4_extent.c:874-907 | after each write of a split the store holds the tree expected at that point, and after the last one it is valid and accounted for again |
| Updates.SplitPassable | port/lwext4_extent.c:874-907 | after each write of a split every lookup still passes every check on its way |
| Updates.LookupFound | port/lwext4_extent.c:521-549 | the extent a lookup records is the one the descent through the tree finds |
| Updates.GrowState | port/lwext4_extent.c:994-1024 | the two writes of a growth give a stored, valid tree that accounts for the new block |
| Updates.CorrectStep | port/lwext4_extent.c:1235-1253 | writing one key repairs one level and leaves only the level above to be repaired |
| Updates.LeafWritten | port/lwext4_extent.c:1349-1368 | rewriting one leaf changes the list of extents in that leaf's place only, and balances the blocks |
| Inserting.LookupMap | port/lwext4_extent.c:1611-1638 | a block is mapped exactly when the selected extent covers it, and the map's value is the one computed from that extent |
| Inserting.InsertMeans | port/lwext4_extent.c:1188-1200 | inserting at the code's position keeps the list sorted and disjoint and adds exactly the new run to the map |
| Inserting.MergeLeftMeans | port/lwext4_extent.c:1136-1146 | so does merging into the selected extent |
| Inserting.MergeRightMeans | port/lwext4_extent.c:1148-1166 | so does merging into the one after it |
| Inserting.LongestIs | port/lwext4_extent.c:1645-1673 | the computed cap is the only length of a run that meets no mapping and that neither the request, nor 32768 blocks, nor the mapping behind it lets be longer |
| Inserting.SequentialMerges | port/lwext4_extent.c:1677-1681 | a run of fresh blocks that follows a written extent with room for it, logically and physically, adds no entry |
| Removing.StepRemove | port/lwext4_extent.c:1783-1792 | one removal step cuts its part of the range, leaves the rest to cut, and leaves no extent reaching across the next start |
| Removing.StepSkip | port/lwext4_extent.c:1769-1781 | skipping to the next extent moves strictly forward and passes no mapped block of the range |
| Removing.StepStop | port/lwext4_extent.c:1754-1757 | when the loop stops nothing mapped is left in the range |
| Removing.CutListing | port/lwext4_extent.c:1257-1347 | what a removal leaves is again sorted, disjoint, non-empty and inside the volume |
| Removing.MiddleFlat | port/lwext4_extent.c:1485-1522 | replacing an extent by its prefix and suffix is cutting the middle out of the whole list |
| Removing.CollapsedRoot | port/lwext4_extent.c:1453-1460 | an index root that lost its last child is, with depth zero, a valid empty leaf |
| ExtentTrees.ExtentTree.TreeInit | port/lwext4_extent.c:1581-1595 | a new inode is a valid tree with an empty map and no blocks |
| ExtentTrees.ExtentTree.FindExtent | port/lwext4_extent.c:439-556 | on any contents an error or a path of at most six levels on which every node was read from the block named above it, at the next depth, and passed checksum, header and selected entry, down to a leaf whose extent lies in the volume; EIO at once when any entry of the root fails the scan; never an error on a valid tree or in the middle of a split, and then the recorded path is the tree's search path; the resolved block is the one the containment test yields |
| ExtentTrees.ExtentTree.LeftmostExtentBelow | port/lwext4_extent.c:616-659 | terminates on any contents, with an error or an extent that passes the scan; below a valid subtree returns its first extent |
| ExtentTrees.ExtentTree.FindNextExtent | port/lwext4_extent.c:661-683 | the extent after the selected one in the whole tree, ENOENT exactly when it is the last |
| ExtentTrees.ExtentTree.AllocBlock | port/lwext4_extent.c:849-853 | what is assumed of the allocator: refuses, or hands out a block of the volume nobody uses; the ledger records which |
| ExtentTrees.ExtentTree.GrowIndepth | port/lwext4_extent.c:952-1026 | EFBIG exactly at the greatest depth, otherwise it fails exactly when the allocator refuses, with its error; a refusal changes nothing; success gives a valid, one level deeper tree with the same extents |
| ExtentTrees.ExtentTree.InsertIndexEntry | port/lwext4_extent.c:744-806 | ENOSPC exactly for a leaf or a full node, EEXIST exactly for a key already there, neither changing anything; otherwise the separator goes to its sorted place |
| ExtentTrees.ExtentTree.SplitFullNode | port/lwext4_extent.c:812-908 | EINVAL exactly for the root or a node that is not full, otherwise ENOSPC for a full parent, otherwise refused exactly when the allocator refuses, with its error; a refusal changes nothing; success splits the node into one new block and keeps the tree valid and the extents the same; the recorded moments are the root and the store after each of the three writes, the last one the state left, and lookups get through each and cannot tell it from the state before |
| ExtentTrees.ExtentTree.LinkUpperHalf | port/lwext4_extent.c:859-895 | the first two writes of a split leave exactly the state in which both nodes hold the moved entries; the recorded moments are those two |
| ExtentTrees.ExtentTree.ShortenNode | port/lwext4_extent.c:893-907 | the last write leaves the lower half in the old block and no other block changed |
| ExtentTrees.TraceInvisible | port/lwext4_extent.c:808-811 | at each of the three moments of a split every block still reads as a whole node, every lookup gets through, and every lookup finds what it found before |
| ExtentTrees.SameAnswer | port/lwext4_extent.c:808-811 | a lookup after any write of a split ends at the same extent as one before it, or like it at none |
| ExtentTrees.ExtentTree.SplitFirstFull | port/lwext4_extent.c:930-944 | splits the first full node below the root of the path, and no other, taking one new block and lowering the measure behind the rounds; or finds room at every level and asks for nothing |
| ExtentTrees.ExtentTree.RoomRound | port/lwext4_extent.c:914-945 | one round grows exactly a full root, else splits, else returns a path with room; a refusal is the allocator's |
| ExtentTrees.ExtentTree.EnsureInsertRoom | port/lwext4_extent.c:910-950 | the fourteen rounds are never used up; where every node on the way has room nothing is asked for or changed; else the tree gains at most one level, and at most one block for that and one for each level below the root; the result is a path with room at every level, or the allocator's own ENOSPC or EIO, or EFBIG only from a full root at depth five; the extents never change |
| ExtentTrees.ExtentTree.WriteIndexAt | port/lwext4_extent.c:1212-1233 | one index entry changes, with a fresh checksum, in one node |
| ExtentTrees.ExtentTree.CorrectIndexes | port/lwext4_extent.c:1235-1253 | afterwards every index key is its subtree's first key again |
| ExtentTrees.ExtentTree.MergeExtent | port/lwext4_extent.c:689-717 | computes the merged extent and writes it to an external leaf, leaving the root to the caller |
| ExtentTrees.ExtentTree.InsertNewExtent | port/lwext4_extent.c:1028-1106 | the list of extents gains the new one at its sorted place and the tree is valid again |
| ExtentTrees.ExtentTree.MergeIntoNeighbour | port/lwext4_extent.c:1125-1186 | merges exactly when the new extent continues the one before it, or there is a hole between the two and the one after it, in the same leaf, continues the new one; the first is preferred; the list of extents is the one with that merge and the map gains exactly the new blocks; otherwise nothing changes |
| ExtentTrees.ExtentTree.InsertExtent | port/lwext4_extent.c:1108-1202 | EEXIST exactly when the first block is mapped; success adds exactly the extent's blocks to the map, and the list of extents is the one with the extent before it grown if that can be, else the one after it if that is in the same leaf and behind a hole, else with one more entry at its sorted place; where a neighbour takes it or its leaf has room nothing is refused and no block is asked for; any refusal is the allocator's or EFBIG and leaves the extents as they were |
| ExtentTrees.ExtentTree.AllocRun | port/lwext4_extent.c:1684-1716 | allocates a contiguous run of fresh blocks, from the goal on if the allocator meets it; ENOSPC only when the first block was refused with it, EIO gives everything back, and a short run ends at a later ENOSPC or at a block that does not continue it, in each case exactly so |
| ExtentTrees.ExtentTree.CapToGap | port/lwext4_extent.c:1645-1673 | a run of that length meets no mapping and is as long as the request, 32768 blocks or the mapping behind it allow |
| ExtentTrees.ExtentTree.GetBlocks | port/lwext4_extent.c:1597-1735 | without create, and for a mapped block, nothing changes: the mapped run cut to the request and to its extent, or a hole; with create an unmapped block gains a run of fresh blocks that reaches the request, 32768 blocks or the next mapping, or a shorter one because the volume ran full or blocks were not contiguous, it continues the physical run before it when the allocator meets the goal, and no other mapping changes; or the extents stay as they were and every block allocated for the run is given back, with the allocator's own error, or EFBIG when leaf and root are full at depth five and no neighbour takes the run; EFBIG never on a half-full tree with blocks of 2048 bytes and up |
| ExtentTrees.ExtentTree.CreateBlocks | port/lwext4_extent.c:1645-1735 | the part of it that creates |
| ExtentTrees.ExtentTree.RemoveIndex | port/lwext4_extent.c:1391-1467 | an emptied child and every node emptied by its loss leave the tree and their blocks are given back; keys are exact again; an emptied index root becomes an empty leaf |
| ExtentTrees.ExtentTree.TrimEntries | port/lwext4_extent.c:1284-1351 | the loop over a leaf leaves the entries cut by the range, and exactly their lost blocks are given back, each once |
| ExtentTrees.ExtentTree.RemoveLeaf | port/lwext4_extent.c:1257-1384 | the list of extents is cut by the range and the tree is valid, whether a prefix, a suffix or a whole extent goes |
| ExtentTrees.ExtentTree.WritePrefixAndSuffix | port/lwext4_extent.c:1477-1538 | with room in the leaf, cuts the middle out of one extent and gives its blocks back |
| ExtentTrees.ExtentTree.RemoveMiddleOfExtent | port/lwext4_extent.c:1469-1539 | cuts the middle out of one extent, never refused where every node on the way has room; a refusal is the allocator's own error or EFBIG from a full root at depth five, and the extents stay |
| ExtentTrees.ExtentTree.RemoveRound | port/lwext4_extent.c:1744-1793 | one round of the removal loop moves strictly forward and leaves no mapped block of the range behind; only the first round can fail, only for a range strictly inside one extent with a full node on the way, and with the allocator's own error or EFBIG |
| ExtentTrees.ExtentTree.RemoveSpace | port/lwext4_extent.c:1737-1794 | success subtracts exactly the range from the map; failure leaves the map whole, can only come from a range strictly inside one extent with a full node on the way, and reports the allocator's own error or EFBIG from a full root at depth five; the tree is valid either way |
| Runs.Step | port/lwext4_extent.c:1597-1794 | one call keeps the tree valid, answers truthfully about the map before it, and leaves the map and the list of extents its answer describes; a lookup changes nothing and its count is the request cut to the extent's end; a new run is the longest possible unless the volume ran full or a block strayed; ENOSPC and EIO are the allocator's own last word, EFBIG comes only from a full root at the greatest depth, room in the tree is refused only to a run that needs it, and a removal only for a range strictly inside one extent with a full node on the way |
| Runs.Replay | port/lwext4_extent.c:1597-1794 | so does any sequence of calls, with the whole history of the tree and of the allocator's answers, against which each answer, count and failure is exact; while the allocator refuses nothing none is told ENOSPC or EIO, and without removals, on blocks of 2048 bytes and up, none is told EFBIG |
| Runs.LastBlockPasses | port/lwext4_extent.c:313-353 | a root with a one-block extent at 0xFFFFFFFF, as a create there would store it, passes every check, and the descent finds the extent |
| Runs.LastBlockUnmapped | port/lwext4_extent.c:540-549 | yet a lookup of that block succeeds and resolves it to nothing |
| Runs.BoundaryUnfound | port/lwext4_extent.c:540-549 | no block of an extent that the scan accepts passes the containment test exactly when the extent ends at 2^32 |
| Runs.SecondCreate | port/lwext4_extent.c:1118-1192 | a second create at the last block passes the overlap check, merges with nothing and goes behind the first entry |
| Runs.LastBlockTwice | port/lwext4_extent.c:313-338 | with two entries at the last block every lookup of any block ends in EIO at the root |
| Runs.BeyondLastBlock | port/lwext4_extent.c:325-335 | so it does with one entry of two or more blocks there |
| Runs.Conservation | port/lwext4_extent.c:1684-1727 | the allocated blocks are the tree's nodes and the map's targets and nothing else, no block is both, and no two logical blocks share one |
| Runs.EmptyIsFree | port/lwext4_extent.c:1453-1460 | when nothing is mapped the tree is an empty leaf and nothing is allocated |
| Runs.SuccessorIsLeast | port/lwext4_extent.c:661-683 | the next extent in the list is the one with the smallest greater first block |
| Paths.ComponentsJoin | port/esp_lwext4.c:847-876 | what the component list is: a separator puts the components of two paths side by side |
| Paths.ComponentsWhole | port/esp_lwext4.c:847-876 | and a path without separators is one component, or none |
| Paths.ResolvePlain | port/esp_lwext4.c:1413-1440 | without dot components a path resolves to its own components |
| Paths.ResolveDots | port/esp_lwext4.c:1413-1440 | "." goes nowhere, down and ".." comes back, and ".." at the root stays there |
| Paths.PathIsStrictDescendant | port/esp_lwext4.c:847-876 | true exactly when the parent's components are a proper prefix of the child's |
| Paths.PathHasDotComponent | port/esp_lwext4.c:1392-1411 | true exactly when "." or ".." is a component |
| Paths.PathIsMountRoot | port/esp_lwext4.c:1413-1440 | true exactly when walking the components, with ".." stopping at the root, ends at the root |
| FileIo.PwriteByte | port/esp_lwext4.c:643-650 | positioned writing as POSIX describes it: new bytes in their place, old bytes elsewhere, zeros in the gap |
| FileIo.ShortWritesCompose | port/esp_lwext4.c:336-349 | a short write continued where it stopped is the whole write |
| FileIo.GrowThenAppend | port/esp_lwext4.c:643-661 | a write past the end is a zero-filled growth and an append |
| FileIo.AppendsOnlyAtEnd | port/esp_lwext4.c:262-267 | a write at a position is an append exactly when the position is the inode's end |
| FileIo.GrowthCompletes | port/esp_lwext4.c:332-349 | for any buffer size and any sequence of successful, non-empty short writes the growth reaches the requested size |
| FileIo.GrowthStops | port/esp_lwext4.c:336-349 | the first write that fails or takes nothing ends the growth, with its own error or EIO |
| FileIo.GrowthFull | port/esp_lwext4.c:336-349 | full writes add whole buffers, and the first that fails or has the rest to write ends the growth with what it took |
| FileIo.ResizedByte | port/esp_lwext4.c:310-361 | what a resized file is, byte by byte |
| FileIo.Handle.Fseek | port/esp_lwext4.c:328-330 | what is assumed of a seek: refused exactly beyond the handle's cached size |
| FileIo.Handle.Fwrite | port/esp_lwext4.c:344-348 | what is assumed of a write: as many bytes as the outcome allows arrive at the position, whatever is reported, if the position lies within the file; nothing is assumed otherwise |
| FileIo.Handle.Fread | port/esp_lwext4.c:659-660 | what is assumed of a read: as many bytes from the position on as the outcome, the end of the file and, unless the core refreshes it, the cached size allow |
| FileIo.Handle.Ftruncate | port/esp_lwext4.c:324-330 | what is assumed of a truncation: it only shrinks |
| FileIo.Context.CurrentFileSize | port/esp_lwext4.c:268-292 | the inode's size, or ENOENT or ESTALE when the path no longer leads to the inode |
| FileIo.Context.SeekToCurrentEnd | port/esp_lwext4.c:294-308 | whatever the handle cached, it ends at the inode's real end; on a failure it is unmoved |
| FileIo.Context.AppendZeros | port/esp_lwext4.c:336-349 | the growth loop adds exactly the zeros, and reports exactly the result, that the outcomes of its writes determine |
| FileIo.Context.ResizeFile | port/esp_lwext4.c:310-361 | success gives exactly the requested size, old bytes then zeros; a failed growth reports its own error and leaves the old bytes and the zeros that were written; after growth the position is the old one or, where another handle shortened the file so far that this lies beyond the end reached, that end; EINVAL reports such a moved position only after a growth that was itself complete; ENOMEM without a buffer |
| FileIo.Context.Write | port/esp_lwext4.c:483-519 | each refusal and its error, in the source's order; otherwise an O_APPEND write adds the accepted bytes at the inode's end, any other writes them at the handle's position, however stale the handle, if that lies within the file; the number accepted is the least of the request, the largest count a call can report and what the core takes, and the reply is that number |
| FileIo.Context.ReadAt | port/esp_lwext4.c:643-660 | the read of a positioned call: nothing at or past the inode's end, EINVAL past the cached size before it, the bytes at the offset otherwise |
| FileIo.Context.WriteAt | port/esp_lwext4.c:645-658 | the write of a positioned call: the gap filled with zeros, or the error and the zeros written so far, then the bytes; EINVAL exactly for a stale handle |
| FileIo.Context.TransferAt | port/esp_lwext4.c:635-662 | both after the check that the path still leads to the inode |
| FileIo.Context.PositionedIo | port/esp_lwext4.c:598-673 | for handles as stale as may be: the position is restored whenever it still lies within the file; a read returns the bytes of the file at the offset and none at or past its end; a write leaves what POSIX's pwrite leaves for the bytes accepted, or, when the gap could not be filled, only the zeros written so far; never more moves than the largest count a call can report, and no less than request and core allow; a failed transfer is reported; EINVAL, EROFS and EBADF in the source's order, with nothing touched, and nothing is ever written through a read-only handle or on a read-only volume |
| FileIo.RefusedLikeWrite | port/esp_lwext4.c:608-628 | a positioned write is refused for its descriptor exactly when a plain write is, with the same error |
| FileIo.RefusedRead | port/esp_lwext4.c:608-628 | a positioned read is refused for its descriptor exactly when that names no file or one opened for writing only |
| FileIo.FailureReported | port/esp_lwext4.c:637-672 | a failing transfer is reported as a failure, with its own error where the call got that far; only a read at or past the end reports success |
| FileIo.StaleReadExact | port/esp_lwext4.c:637-654 | the error code alone: a positioned read fails only when its transfer fails exactly when the offset is within the cached size or at or past the inode's end; what a successful read returns is the matter of StaleReadWhole |
| FileIo.StaleReadWhole | port/esp_lwext4.c:635-662 | the whole answer: a read the core is willing to do in full returns all there is at the offset up to the limit, refresh or not, exactly when there is nothing to read, or the cached size does not lag, or the request lies within it |
| FileIo.StaleReadEmpty | port/esp_lwext4.c:653-660 | with a cached size of 10 and an inode of 20 bytes a read of 5 at 10 succeeds with nothing unless the core refreshes the size |
| FileIo.StaleReadRefused | port/esp_lwext4.c:637-654 | with a cached size of 10 and an inode of 20 bytes a read at 15 is refused EINVAL |
| FileIo.StaleWriteWhole | port/esp_lwext4.c:645-658 | a positioned write the core is willing to do in full, and whose gap could be filled, does so exactly when the offset is within the cached size, or past the end and not before the handle's position |
| FileIo.StaleWriteRefused | port/esp_lwext4.c:645-658 | refused EINVAL: a write at 15 with a cached size of 10 and an inode of 20 bytes, and one at 15 from position 30 into a file cut to 10 bytes |
| FileIo.CurrentGoesAhead | port/esp_lwext4.c:635-662 | through an up-to-date handle no positioned call is refused for its offset, and a read the core does in full returns all there is up to the limit |
| FileIo.HandleEvent | port/esp_lwext4.c:483-519 | one event in a run: an append is refused, with nothing added, exactly for a read-only volume, a descriptor that is not open for writing, a path that leads elsewhere, or a size that cannot be expressed, each with its error; otherwise exactly the bytes the core takes are added to its file and to no other, and the reply is their number or the core's error |
| FileIo.AppendRun | port/esp_lwext4.c:262-308 | after any interleaving of appends, seeks and renames through any handles on any files, each file is its old content followed by the accepted bytes in order; each append is accepted or refused as the renames and the appends before it call for, whatever its handle has cached |

## Left out

- Block cache and device errors, and the journal: a block that is read or written is
  there, and only the block allocator refuses (with ENOSPC, or EIO). Journal commit
  and abort are not part of this model; `transaction` is a flag.
- Trees with index keys below their subtree's first key, or with a smaller
  `max_entries_count` than the block has room for, as other implementations may
  write: lookup is proved safe on them (it ends with an error or an extent inside
  the volume), not exact.
- Logical ends of exactly 2^32: outside `Valid()`; see the conditions and the boundary
  cases above.
- ExtentTrees.ExtentTree.GetBlocks: asks of a create on an unmapped block that the
  block plus the longest run possible there ends at or below 2^32 - 1, because the
  32-bit sums of the code wrap beyond it.
- Runs.Replay: asks a little more, of the requests alone: block plus request, or block
  plus the longest extent, at or below 2^32 - 1. It says nothing about EFBIG for
  blocks of 1024 bytes, where half-full nodes hold too few extents for the counting
  argument.
- ExtentTrees.ExtentTree.AllocBlock: any free block may be handed out. The goal of a
  run that continues an extent is relied on only where a contract says the allocator met
  it; the inode's general goal stands as 0, and nothing is claimed about it.
- ExtentTrees.ExtentTree.EnsureInsertRoom: claims no minimal tree; splits leave nodes
  half full, removal does not rebalance, and adjacent extents in different leaves are
  not merged.
- Branches of the source that a valid tree never takes have no counterpart in the
  methods: the re-reads of a header that must match the recorded path, the clean-up
  after a failed block get or put, the third merge of `insert_extent` (shown dead
  there by an assertion), the growth inside `insert_new_extent`, and the EIO returns
  for a still-full leaf or a successor that is not ahead.
- Node memory inside `ExtentTrees.ExtentTree`: nodes are values there, one per block;
  `NodeBytes` and `LeafBytes` cover the byte buffers one node at a time, so sharing of
  buffers in the block cache is not modelled.
- CRC32C: an arbitrary function of the bytes before the tail; the UUID, inode number
  and generation that seed it are fixed with it.
- Writing into or converting unwritten extents: the code refuses it (ENOTSUP).
- FileIo.Handle.Fwrite: promises nothing about the file when the position lies beyond
  its end, as it can after another handle has shortened it; what the core does then is
  not part of this model. FileIo.Context.Write inherits this without O_APPEND.
- FileIo.Context.ResizeFile: says of a failed truncation only that a prefix of at least
  the requested size is left.
- Opening, closing, plain reads, SEEK_CUR, SEEK_END and the `ftruncate` and
  `truncate` entry points are not modelled.
- The lock is held throughout each call, so a run is a sequence of whole calls.
- The block-device and SD-card adapters, the formatter wrapper, mount and unmount,
  directories, `stat`, `utime`, rename plumbing and the build files: thin wrappers
  with no algorithm of their own.
