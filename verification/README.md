# A verified model of the UFS reader and its forensic sweeps

The repository reads UFS1 and UFS2 filesystem partitions from one immutable byte buffer, audits them for damage and
recovers what a deletion leaves behind. This project models that pipeline in Dafny, from endian readers to the two
top-level operations `audit_image` and `recover_deleted`, and proves properties of it.

## How the model is built

A partition is a `Buffer`: a byte sequence shorter than 2^63, as a Rust slice is. Every unsigned 64-bit operation that
saturates in the code saturates here (`SatAdd`, `SatMul`, `SatSub`), and the theorems say when it equals the unbounded
integer. Signed fields keep their sign, and `AsU64` is the code's sign-extending cast. Out-of-range reads yield 0, as
the readers do.

Code that loops or fills a buffer is a method with a loop (`ReadInodeFile` fills an array in place; `ReadAt` copies into
the caller's array; the two graph walks keep a queue, a budget and what they have seen). Each is proved equal to a
specification function, and the lemmas are about that function. Straight-line code is a function. An out-vector passed
by `&mut` is a sequence passed in and returned, and the contract says that the old contents come first.

| module | what it models |
|---|---|
| `Bytes` | saturating arithmetic, little- and big-endian integers and their bounds-checked readers |
| `Gathering`, `Images` | concatenating a row of sequences; writing byte ranges into an image |
| `Superblocks`, `Inodes`, `Groups` | `struct fs`, the dinodes, `struct cg`: decoding, validation, address arithmetic |
| `Radix`, `BlockMap` | block indices as digit paths; the block map as twelve leaves and three perfect trees; file content |
| `Directory`, `DirectoryEdits`, `Listing` | `struct direct` records, printing and deleting them, listing a directory |
| `Paths`, `Views` | path resolution and lookup; extents and windowed reads of the mounted view |
| `Traversal`, `Completeness`, `Preorder` | the reachability walk and the deleted-slot walk over a possibly cyclic directory graph; when the first is complete; the second as a recursive walk |
| `Audit`, `Carve` | the auditor and the recovery sweep |
| `Contents` | directories read whole, and what the orphan sweep says about them |
| `Frames`, `Deletion`, `MassDeletion`, `MassNames` | what an edit leaves unchanged; delete one file or many, then recover contents and names |
| `LiveView`, `FoldDeletion` | the live listing after either way of deleting; deleting by folding, then recovering |
| `Layout`, `Allocation` | laying a file out in an image, then reading it back; a place for every block |
| `Fixtures`, `Scenario`, `TwoRemovals` | the crafted partitions of forensic/tests; the deletion of carve.rs, generalised, and two deletions: instances of the recovery theorems |
| `Counterexamples` | partitions on which the code does not do what its documentation says |

## Where the code and its documentation differ

The model follows the code.

- `deleted` means `d_ino == 0` (core/src/dir.rs:279), so every collected name carries inode 0 and no carved file is ever
  paired with a name, although forensic/src/lib.rs:586-587 promises a pairing. `Carve.CarvedAreNameless` proves it.
- `reachable_inodes` queues a directory on the first sighting of its number only, so a number first met under another
  type is never descended into. `Counterexamples.HiddenInodeIsReported` is a partition on which a linked inode that a
  directory names is missed and reported as an orphan. `Completeness.ReachCompleteIff` says exactly when the walk
  expands every directory: the closure has at most 2^20 of them and a condition on the directory graph holds. It is an equivalence about expanding
  directories. For the numbers found, completeness follows from the condition, and the converse does not hold, since a
  directory that is not expanded may name nothing new (`Completeness.NothingNewIsMissed`). `Traversal.ReachOnAnyGraph`
  says exactly which numbers are found: the root and those that an expanded directory names.
- `parse_primary_sb` stops at a full-sized foreign region at byte 65536, where `UfsFs::open` goes on to byte 8192.
  `Audit.PrimaryMatchesOpen` gives the exact condition under which the two agree, and
  `Counterexamples.AuditorRejectsWhatOpens` gives partitions on which they do not.
- core/src/file.rs:156-163 calls a block index past the triple reach unreachable for a file that passes the size check.
  `fs_nindir` is never validated. `BlockMap.ReachCoversPartition` shows the claim to hold iff the partition is no longer
  than the map's reach, `Counterexamples.PastReachOccurs` is a partition where the loop asks for such a block, and
  `BlockMap.PastReachIsHole` shows that every such block is a hole.
- docs/RESEARCH.md:135-138 describes deletion by folding an entry into the record before it. When that record's name
  length exceeds its own space, its name grows over the freed bytes: `LiveView.ListingsAgreeIff` gives the exact
  condition under which the live listing is the one that zeroing the inode number leaves, and
  `Counterexamples.DeletionsDisagree` is a partition where it is not.
- forensic/src/lib.rs:561-569 promises names from the slack of a preceding record. After a fold the content is recovered
  and the collected names are exactly those of before: `FoldDeletion.FoldThenRecover`, `Scenario.SceneFoldRecovered`.
- `check_cg_magic` accepts a header in either byte order; reading the bitmap uses the superblock's order only.
- Listing covers direct blocks only, so forensic/src/lib.rs:479-481 does not hold as stated: an inode named in a
  directory's thirteenth block is reported as an orphan (`Counterexamples.LateInodeIsReported`).
  `Contents.ListingIsWholeIff` says exactly when a listing is the whole directory, and `Contents.OrphansAreUnreferenced`
  is the promise where it is kept.
- `list_dir_all` lists any inode without asking whether it is a directory.

## Model

| member | source | states |
|---|---|---|
| `Bytes.ReadUint` | core/src/bytes.rs:24-123 | a reader returns the integer its bytes encode in its order, and 0 if any byte is out of range |
| `Bytes.DecodeEncode` | core/src/bytes.rs:64-123 | decoding the encoding of any value that fits its width gives the value, in either order |
| `Bytes.EncodeDecode` | core/src/bytes.rs:64-123 | encoding the decoding of any bytes gives the bytes, so no information is lost |
| `Bytes.ClampSteps` | core/src/inode.rs:430-439 | a chain of saturating steps is the unbounded result, clamped once at the end |
| `Bytes.CastsWrap` | core/src/superblock.rs:240-257 | the sign-extending cast is reduction modulo 2^64, and reading a word as signed is reduction modulo 2^32 |
| `Superblocks.ParseExact` | core/src/superblock.rs:149-266 | parsing succeeds iff the buffer is long enough and some version and order have their magic and sane geometry; what it returns carries that magic, decoded in that order |
| `Superblocks.ParseRefused` | core/src/superblock.rs:149-266 | a short region, a region whose bytes 1372 to 1376 are no magic, and bad geometry are each refused with their own values |
| `Superblocks.MagicIsUnambiguous` | core/src/superblock.rs:172-187 | no four bytes are a UFS magic in both orders, so the order in which the arms are tried never matters |
| `Superblocks.SuperblockRoundTrip` | core/src/superblock.rs:149-266 | writing the fields of any sane superblock, of either version and in either order, into any buffer and parsing it returns that superblock |
| `Superblocks.ParsePrefix` | core/src/superblock.rs:149-235 | only the first 1376 bytes of the region decide the result |
| `Inodes.ParseWithMaxSymlink` | core/src/inode.rs:207-333 | the method that fills the two pointer arrays slot by slot decodes exactly the specified dinode, or fails as specified |
| `Inodes.Ufs2Layout` | core/src/inode.rs:38-53 | in a UFS2 dinode mode is bytes 0-1, link count 2-3, size 16-23, direct pointer i the eight bytes at 112+8i and indirect pointer i those at 208+8i |
| `Inodes.Ufs1Layout` | core/src/inode.rs:55-69 | in a UFS1 dinode mode is bytes 0-1, link count 2-3, size 8-15, direct pointer i the four bytes at 40+4i and indirect pointer i those at 88+4i |
| `Inodes.DinodeRefused` | core/src/inode.rs:214-223 | a dinode decodes iff 256 bytes of UFS2 or 128 of UFS1 are there, and is reported as truncated otherwise |
| `Inodes.PointersAreTheirBytes` | core/src/inode.rs:278-296 | re-serialising the decoded pointers gives back the bytes they were read from |
| `Inodes.FastSymlinkIsThePointerBytes` | core/src/inode.rs:300-314 | a target is inline iff the inode is a symlink whose size is within a positive limit; it is then the first min(size, 60 or 120) bytes of the serialised direct and indirect pointers |
| `Inodes.DinodeRoundTrip` | core/src/inode.rs:207-333 | writing mode, link count, size and fifteen pointers into any dinode and decoding it returns them all, for both versions and orders |
| `Inodes.DinodeFieldsReadBack` | core/src/inode.rs:278-296 | any buffer that holds those fields decodes to them, whatever its other bytes are |
| `Inodes.InodeStartExact` | core/src/inode.rs:430-439 | the saturating byte offset is the exact offset, clamped |
| `Inodes.ReadInodeExact` | core/src/inode.rs:386-452 | an inode is read iff the geometry is positive, the number is below ipg*ncg and its exact byte range fits; what is read is the dinode in that range |
| `Inodes.ReadInodeRefused` | core/src/inode.rs:386-452 | each of the six failures to locate an inode, in the order they are tested, with the value and limit it reports |
| `Inodes.InodePlace` | core/src/inode.rs:430-439 | inode i sits (i/ipg * fpg + iblkno) fragments in, plus i mod ipg records of 256 bytes (UFS2) or 128 (UFS1) |
| `Inodes.InodeCountExact` | core/src/inode.rs:424-428 | the inode count never saturates |
| `Inodes.InodesAreDisjoint` | core/src/inode.rs:430-443 | when inode tables fit their groups, a smaller inode number lies strictly before a larger one |
| `Radix.DigitsValue` | core/src/file.rs:140-168 | every index below n^h has h digits below n, and they evaluate back to it |
| `Radix.ValueDigits` | core/src/file.rs:140-168 | every digit list below n is that of exactly one index below n^h |
| `Radix.PathOfIndex` | core/src/file.rs:132-169 | every block index below 12+n+n^2+n^3 has a valid path (level and digits) that numbers it |
| `Radix.IndexOfPath` | core/src/file.rs:132-169 | and every valid path is that of one such index, so the two are in bijection |
| `BlockMap.ReadBlock` | core/src/dir.rs:145-162 | fails iff the fragment size is not positive; otherwise returns what the image holds of the exact byte range, despite saturation |
| `BlockMap.IndirectPtrExact` | core/src/file.rs:174-191 | a pointer read through the clamped block equals the pointer at its exact place in the image, 0 for a hole, past the block or past the image |
| `BlockMap.PointerBytes` | core/src/file.rs:174-191 | slot k of the pointer block at a fragment is the w bytes at k*w, with w eight (UFS2) or four (UFS1), and 0 for a hole and past the block or the image |
| `BlockMap.ResolveExact` | core/src/file.rs:132-169 | the code's cascade of saturating comparisons and divisions agrees with the recursive digit-path specification for every u64 index and every fan-out below 2^31 |
| `BlockMap.SinglePointer` | core/src/file.rs:140-144 | block 12+a is slot a of the first indirect block |
| `BlockMap.DoublePointer` | core/src/file.rs:145-153 | block 12+n+(a*n+b) is slot b of the block at slot a of the second, for n = fs_nindir |
| `BlockMap.TriplePointer` | core/src/file.rs:154-168 | block 12+n+n^2+(a*n^2+b*n+c) is three slots down from the third |
| `BlockMap.CubeGuard` | core/src/file.rs:161-164 | the saturated triple-reach guard fires exactly at the true end of the map |
| `BlockMap.LeafFollows` | core/src/file.rs:140-168 | leaf i of a perfect tree listed in order is the one reached by following the digits of i |
| `BlockMap.FileLeafAt` | core/src/file.rs:132-169 | the in-order leaves of the twelve pointers and the trees of height 1, 2 and 3 are what each block index resolves to |
| `BlockMap.FileBlock` | core/src/file.rs:97-120 | each aligned stretch of the concatenated, cut or zero-extended content is the block its index resolves to |
| `BlockMap.PastReachIff` | core/src/file.rs:97-106 | the loop asks for a block past the triple reach iff the file is longer than the map's reach |
| `BlockMap.ReachCoversPartition` | core/src/file.rs:156-163 | no file that passes the size check does so iff the partition is no longer than the map's reach |
| `BlockMap.PastReachIsHole` | core/src/file.rs:156-163 | every block past the triple reach resolves to a hole |
| `BlockMap.ReadInodeFile` | core/src/file.rs:59-123 | for every inode and image: succeeds iff the sizes are positive and di_size is at most the image length, with di_size and that length in the refusal; then exactly di_size bytes, the in-order concatenation of all leaves, zeros for holes, past the image and past the triple reach |
| `BlockMap.ContentRefused` | core/src/file.rs:64-88 | content is returned iff block and fragment sizes are positive and di_size is at most the image length; the three refusals carry their values, and what is returned has exactly di_size bytes |
| `BlockMap.FillBlocks` | core/src/file.rs:97-120 | the block loop turns a zeroed buffer into that content, in place |
| `BlockMap.FillBlock` | core/src/file.rs:105-119 | one turn extends the correct prefix by one block and leaves the rest zero |
| `BlockMap.CopyBlock` | core/src/file.rs:107-116 | copying what is present of a block sets exactly its range to the block's bytes and zeros |
| `BlockMap.ReadFile` | core/src/file.rs:47-50 | reading by number is locating, then reading, with either failure passed on |
| `Directory.WalkBlock` | core/src/dir.rs:250-284 | on any bytes the cursor loop terminates and appends exactly the entries of the recursive record specification |
| `Directory.WalkBound` | core/src/dir.rs:252-263 | a block yields at most one entry per eight bytes |
| `Directory.WalkDeleted` | core/src/dir.rs:275-280 | an entry is marked deleted iff its inode number is 0 |
| `Directory.DTypeNumbers` | core/src/dir.rs:91-108 | the DT_ number of each of the nine kinds, and no other number has one |
| `Directory.KindsAgree` | core/src/inode.rs:117-131 | the top four bits of any mode and the same DT_ number name the same kind; directories are the modes 0x4000-0x4FFF, regular files 0x8000-0x8FFF, symlinks 0xA000-0xAFFF |
| `Directory.WalkAppend` | core/src/dir.rs:250-284 | walking a+b is walking a, then b, whenever the walk of a ends exactly at its end |
| `Directory.WalkChunks` | core/src/dir.rs:40-42 | directory blocks may be walked one by one or as one: any list of exactly tiled chunks |
| `Directory.WalkZeros` | core/src/dir.rs:260-262 | zero bytes hold no entry, so a hole reads as nothing |
| `Directory.LiveAppend` | core/src/dir.rs:183-186 | filtering live entries distributes over concatenation |
| `DirectoryEdits.RecordReadsBack` | core/src/dir.rs:349-357 | a printed record parses to its entry and its own length, in either order |
| `DirectoryEdits.WalkPrint` | core/src/dir.rs:250-284 | walking printed records returns exactly those entries and ends exactly at the end |
| `DirectoryEdits.PrintOffset` | core/src/dir.rs:250-284 | the walk meets each printed record exactly where the records before it end |
| `DirectoryEdits.ZeroInoWalk` | forensic/tests/carve.rs:130-137 | zeroing the inode number of any walked entry changes that entry alone, to a deleted one with the same name |
| `DirectoryEdits.ZeroManyWalk` | core/src/dir.rs:250-284 | zeroing the inode numbers of any set of records deletes exactly those slots under their old names |
| `DirectoryEdits.FoldWalk` | docs/RESEARCH.md:135-138 | folding a record into the one before removes exactly that entry iff the earlier record's name length fits its old record; otherwise the earlier name changes too |
| `DirectoryEdits.FoldShape` | docs/RESEARCH.md:135-138 | folding drops the record's slot and changes nothing else but, at most, the earlier name, which it keeps iff that fits |
| `DirectoryEdits.DeletionsAgreeOnLive` | docs/RESEARCH.md:135-138 | in one block, both ways of deleting leave the same live entries iff the earlier name fits or the earlier entry is itself deleted; zeroing leaves all but the deleted one |
| `LiveView.ListingsAgreeIff` | core/src/dir.rs:178-187 | after either edit in any direct block of any directory, `list_dir` returns the same listing under exactly that condition |
| `Listing.ListDirEntries` | core/src/dir.rs:215-245 | the listing is the walks of the direct blocks in order, each bounded by what is left of di_size |
| `Listing.DirBlockBytes` | core/src/dir.rs:215-245 | block k of a directory gives the slots of the bytes of its fragment that exist, up to the end of the file, fs_bsize at a time or 512 when that is not positive; a zero pointer gives none |
| `Listing.DirBlockPast` | core/src/dir.rs:227-230 | a block past the end of the file gives no slots |
| `Listing.ListingIsContent` | core/src/dir.rs:215-245 | when the blocks used are present, the listing equals the walks of the first twelve block-sized chunks of the file content |
| `Listing.ChunkIsBlock` | core/src/dir.rs:227-243 | so does each single block, holes included |
| `Paths.FindLive` | core/src/dir.rs:316-321 | finds a live entry of that name iff there is one, and then the first |
| `Paths.FindInLive` | core/src/vfs.rs:291-298 | searching the live listing finds the same entry as searching the full one for live entries |
| `Paths.ReadByPath` | core/src/dir.rs:299-326 | the loop over components returns the fold of single steps from the root, with its failures and its not-found cases |
| `Paths.JoinSplit` | core/src/dir.rs:308-311 | joining the components of any path with slashes gives the path back, and no component holds a slash |
| `Paths.SplitJoin` | core/src/dir.rs:308-311 | splitting the join of any slash-free components gives them back |
| `Paths.ComponentsJoin` | core/src/dir.rs:308-311 | the names walked for any non-empty slash-free names, joined with or without a leading slash, are those names |
| `Paths.PathConcatenation` | core/src/dir.rs:308-325 | resolving p/q is resolving q from where p leads |
| `Paths.ExtraSlashes` | core/src/dir.rs:309-311 | a leading, trailing or doubled slash never matters |
| `Paths.PathIsLookups` | core/src/vfs.rs:291-298 | a path resolves iff looking its components up one by one from the root finds something through readable directories; both then give the same inode |
| `Views.Extents` | core/src/vfs.rs:259-289 | the runs of the non-zero direct blocks up to the end of the file, or the failure to locate the inode |
| `Views.RunsInOrder` | core/src/vfs.rs:264-288 | the run of direct block k comes after those of the blocks before it, starts at its pointer times fs_fsize and is as long as the block or what is left of the file; holes and blocks past the end have none, and there are at most twelve |
| `Views.RunsAccountForFile` | core/src/vfs.rs:264-288 | run lengths and the bytes under holes add up to min(size, 12 blocks) |
| `Views.RunIsContent` | core/src/vfs.rs:264-288 | a run inside the image holds exactly the bytes the file content has at that block |
| `Views.ReadAt` | core/src/vfs.rs:332-345 | a windowed read returns how many bytes there are from the offset, copies exactly those and leaves the rest of the caller's buffer unchanged |
| `Traversal.ReachableInodes` | forensic/src/lib.rs:751-777 | the worklist walk over a listed image returns what the specified walk finds |
| `Traversal.EdgesAndNames` | forensic/src/lib.rs:764-775 | an edge of the graph is a live DT_DIR entry, and a name a live entry of any kind, other than `.` and `..` |
| `Traversal.ReachOnAnyGraph` | forensic/src/lib.rs:751-777 | on any graph, cyclic or not: no duplicates, only directories of the DT_DIR closure expanded and each at most once, and exactly the root and what these name is found; it stops short only after 2^20 directories |
| `Traversal.BudgetSuffices` | forensic/src/lib.rs:754-760 | nothing is left queued when the closure has at most 2^20 directories |
| `Traversal.ReachExact` | forensic/src/lib.rs:749-777 | when entries agree on what is a directory, exactly the root and every number named at the end of a DT_DIR chain is found |
| `Completeness.ReachCompleteIff` | forensic/src/lib.rs:751-777 | every directory of the closure is expanded iff there are at most 2^20 and a plain depth-first walk of the DT_DIR entries, which never looks at what has been found, meets no number as a directory after meeting it as something else; then every number named in the closure is found |
| `Completeness.AgreementSuffices` | forensic/src/lib.rs:764-775 | entries that agree on types meet that condition |
| `Completeness.FirstSightingHides` | forensic/src/lib.rs:768-773 | whenever the root names a number as a file and then as a directory, what that directory alone names is missed |
| `Completeness.NothingNewIsMissed` | forensic/src/lib.rs:764-775 | when such a directory names nothing new, the condition fails and every named number is found all the same |
| `Traversal.CollectDeletedDirents` | forensic/src/lib.rs:622-654 | the deleted-slot walk over a listed image returns what the specified walk collects |
| `Traversal.OneSlot` | forensic/src/lib.rs:641-651 | a slot yields its name when deleted, named and neither `.` nor `..`; its number when live, DT_DIR and neither |
| `Traversal.ListingsAppend` | forensic/src/lib.rs:641-651 | and slots yield what they do one after the other |
| `Preorder.CollectIsDepthFirst` | forensic/src/lib.rs:622-654 | a walk that its budget lets finish expands the directories in the order of the recursive depth-first walk from inode 2, the subdirectory listed last first, and collects their residual slots in that order |
| `Traversal.CollectOnAnyGraph` | forensic/src/lib.rs:622-654 | on any graph: each directory is expanded at most once, all are in the closure, and the result is each one's residual slots in order, exactly once |
| `Traversal.CollectExact` | forensic/src/lib.rs:622-654 | when all pushes stay within the budget, the expanded directories are exactly the closure |
| `Traversal.CollectFitsIff` | forensic/src/lib.rs:625-635 | nothing is left queued iff the root and all pushes of the closure, repeats included, fit in 2^20 |
| `Traversal.WalksAgree` | forensic/src/lib.rs:622-654 | under type agreement the two separately written walks expand the same directories |
| `Traversal.CollectSame` | forensic/src/lib.rs:628-652 | an edit that keeps the subdirectories of every expanded directory keeps the whole set of them |
| `Groups.GroupByteExact` | forensic/src/lib.rs:729-732 | the saturating byte offset of a fragment of a group is the exact one, clamped |
| `Groups.CgInodeBitmapExact` | forensic/src/lib.rs:722-740 | a bitmap is found iff the geometry is usable, the header carries its magic in the superblock's order and the bitmap's exact range fits; it is then exactly those bytes |
| `Groups.BitmapBytes` | forensic/src/lib.rs:718-740 | with h the byte of the group header: a bitmap is found iff 124 bytes are there, the word at h+4 is 0x00090255 in the superblock's order and the range fits; it then starts at h plus the word at h+92 and has one bit for each inode of the group |
| `Groups.NoBitmap` | forensic/src/lib.rs:723-728 | unusable geometry has none |
| `Groups.BitPlace` | forensic/src/lib.rs:743-747 | bit i is bit i mod 8, from the least significant, of byte i/8, and clear past the end |
| `Groups.BitInRange` | forensic/src/lib.rs:743-747 | every bit the sweeps ask for lies inside the bitmap |
| `Groups.GroupInode` | forensic/src/lib.rs:486-500 | slot `within` of a group is inode base+within, without saturation, and its bit is that inode's bit |
| `Audit.PrimaryMatchesOpen` | forensic/src/lib.rs:390-411 | the auditor and the mounter settle on the same superblock iff a foreign region at 65536 implies that none parses at 8192 |
| `Audit.PrimaryVerdict` | forensic/src/lib.rs:390-411 | the verdict region by region: at 65536 a superblock, or its four bytes at 66908 as an invalid magic, or, when the region is short or its geometry bad, the same at 8192 and 9564 |
| `Audit.CheckImpossibleGeometry` | forensic/src/lib.rs:318-341 | stops, with one finding, iff the geometry is positive and the true last group base is at or past the end of the image |
| `Audit.LastBaseExact` | forensic/src/lib.rs:328-332 | the saturated comparison decides the true integer one |
| `Audit.ReportedLimit` | forensic/src/lib.rs:333-339 | a reported group count is at least the reported limit, and equal only when the group size divides the image length |
| `Audit.OffsetsStayExact` | forensic/src/lib.rs:359-373 | once the guard has passed, no backup or header offset saturates |
| `Audit.CheckBackupSb` | forensic/src/lib.rs:418-453 | appends the findings of one backup superblock |
| `Audit.DivergenceExact` | forensic/src/lib.rs:442-452 | a divergence is reported iff it is one of the compared fields and its values differ |
| `Audit.BackupReports` | forensic/src/lib.rs:418-453 | a divergence (field, x, y) is reported iff the backup parses, x differs from y, and x is the primary's and y the backup's fs_ipg, fs_fpg, fs_bsize or fs_ncg; each field at most once, in that order |
| `Audit.HeaderReports` | forensic/src/lib.rs:456-477 | a header is reported iff it is there and its word at byte 4 is 0x00090255 in neither order, by its little-endian reading |
| `Audit.BackupClean` | forensic/src/lib.rs:418-453 | a backup yields no finding iff it does not parse or agrees on all four fields |
| `Audit.CheckCgMagic` | forensic/src/lib.rs:456-477 | appends the finding of one group header |
| `Audit.CheckAllCgs` | forensic/src/lib.rs:346-375 | the findings of every group in ascending order, each group's backup before its header, at exact offsets |
| `Audit.GroupFindingsClean` | forensic/src/lib.rs:359-374 | a group yields no finding iff its backup agrees or is absent and its header matches in either order or is absent |
| `Audit.CheckOrphanedInodes` | forensic/src/lib.rs:482-520 | the nested loop over groups and slots appends the orphans of every inode number in order |
| `Audit.OrphansOfGroup` | forensic/src/lib.rs:494-518 | the inner loop covers exactly the numbers of its group |
| `Audit.OrphansExact` | forensic/src/lib.rs:479-520 | the orphans are strictly ascending and are exactly the inodes from 3 with bit set, not found by the walk, readable and linked |
| `Audit.NoOrphanIsMissed` | forensic/src/lib.rs:479-520 | on any directory graph, every inode from 3 that is used, readable, linked and named by no listing of a directory reached from the root is reported |
| `Audit.OrphansAreUnnamed` | forensic/src/lib.rs:482-520 | when the closure fits the budget and directories come first, exactly the used, readable, linked inodes that no listing names are reported; a listing covers direct blocks only |
| `Contents.ListingIsWholeIff` | core/src/dir.rs:206-245 | for a directory that can be read, the listing is its whole content iff no block past the twelfth holds a slot |
| `Contents.TwelveBlocksSuffice` | core/src/dir.rs:206-245 | at most twelve blocks are enough for that |
| `Contents.NoUnreferencedIsMissed` | forensic/src/lib.rs:479-520 | when the directories reached can be read, every used, readable, linked inode that none of their whole contents names is reported |
| `Contents.OrphansAreUnreferenced` | forensic/src/lib.rs:479-520 | when moreover every directory passes that guard, the closure fits the budget and directories come first, exactly those inodes are reported |
| `Audit.AuditImage` | forensic/src/lib.rs:273-313 | the audit is the magic finding alone, nothing, the geometry finding alone, or the group findings followed by the orphans |
| `Audit.AuditExact` | forensic/src/lib.rs:273-313 | when the last group starts inside the image: exactly the divergences of the backups of groups 1 and up, the bad headers and the orphans, each at its exact offset; group by group, field by field, header last, and then the orphans by number; and nothing else |
| `Audit.AuditStops` | forensic/src/lib.rs:278-291 | no superblock gives an empty audit, a foreign magic that one finding |
| `Audit.AuditBeyond` | forensic/src/lib.rs:318-341 | a last group that starts past the image gives one finding, with the image length over the group size, plus one, as its limit |
| `Audit.AuditEmptyIffClean` | forensic/src/lib.rs:264-313 | the audit is empty iff the image is clean by every one of these conditions |
| `Carve.CarveDeletedInodes` | forensic/src/lib.rs:660-714 | the nested loop appends what every inode number yields, in order |
| `Carve.CarveGroup` | forensic/src/lib.rs:674-712 | the inner loop covers exactly the numbers of its group |
| `Carve.ContentHasSize` | forensic/src/lib.rs:694-699 | readable content has the inode's size, so the empty-content test never fires |
| `Carve.CarvedExact` | forensic/src/lib.rs:660-714 | carved files are strictly ascending and are exactly the carvable inodes; each carries its size and content, which is never empty nor longer than the image |
| `Carve.CarvedAreNameless` | forensic/src/lib.rs:701-704 | the name lookup finds nothing for any inode number above 0 |
| `Carve.DeletedOfExact` | forensic/src/lib.rs:641-650 | the names reported for a directory are exactly those of its deleted, named slots other than `.` and `..` |
| `Carve.NameForExact` | forensic/src/lib.rs:701-704 | a carved file is paired with the first collected name of its number, and with none iff there is none |
| `Carve.RecoverDeleted` | forensic/src/lib.rs:593-617 | recovery is the deleted names followed by the carved files, or nothing when no superblock parses |
| `Carve.RecoverExact` | forensic/src/lib.rs:593-714 | recovery is every collected name, in order, and then exactly the inodes from 3 with bit clear, readable, regular, of a size from one byte to the image length and with a first block, by number, each nameless and with its content; every content has the size reported and is no longer than the image |
| `Carve.RecoverEmptyIff` | forensic/src/lib.rs:589-617 | recovery is empty iff no superblock parses, or no directory walked has a residual slot and no inode is carvable |
| `Carve.SweepsAreExclusive` | forensic/src/lib.rs:482-714 | no inode is both an orphan and carvable |
| `Frames.PrimarySame` | forensic/src/lib.rs:390-411 | an edit off the superblock regions leaves the primary superblock |
| `Frames.InodeSame` | core/src/inode.rs:386-452 | an edit off an inode's bytes leaves the inode |
| `Frames.FollowSame` | core/src/file.rs:174-191 | an edit off the pointer blocks on a path leaves where the path leads |
| `Frames.FileSame` | core/src/file.rs:59-123 | an edit off a file's pointer blocks and data leaves its content |
| `Deletion.ClearBitExact` | forensic/tests/carve.rs:138-139 | clearing a bit clears it and leaves every other bit of the byte |
| `Deletion.UnlinkFreesInode` | forensic/src/lib.rs:722-747 | after the edit the bitmap says the inode is free |
| `Deletion.ContentSurvives` | forensic/src/lib.rs:683-696 | an edit off a live file's residue leaves its inode and its content readable as before |
| `Deletion.DeleteThenCarve` | forensic/src/lib.rs:593-714 | zeroing an entry's inode number and clearing the inode's bit, both off the file's residue, makes recovery return that inode with exactly its old content |
| `Deletion.UnlinkedBlock` | core/src/dir.rs:250-284 | in the edited directory block the removed slot is deleted under its old name and every other slot stands |
| `Deletion.DeletedNameIsRecovered` | forensic/src/lib.rs:622-654 | the same edit leaves the deleted-slot walk's directories unchanged and makes recovery report the removed name |
| `MassDeletion.AllFreed` | forensic/src/lib.rs:722-747 | after any sequence of removals every removed inode is free, even where their bits share a byte |
| `MassDeletion.DeleteAllThenCarve` | forensic/src/lib.rs:593-714 | after any sequence of removals that together spare one another's residue, recovery returns every removed file with exactly its old content |
| `MassNames.DeletedNamesAreRecovered` | forensic/src/lib.rs:622-654 | after any sequence of removals that hit nothing but their own entries in the directories walked, the walk expands the same directories and recovery reports every removed name |
| `FoldDeletion.FoldThenRecover` | forensic/src/lib.rs:561-617 | after an entry is folded away and its inode freed, recovery returns the file with exactly its old content, and the names collected are those collected before |
| `Layout.FollowStored` | core/src/file.rs:140-191 | following pointers through an image that stores a tree is walking that tree |
| `Layout.StoredIfWritten` | core/tests/file_indirect.rs:84-257 | an image that holds every write of a tree stores the tree |
| `Layout.NodeAtBuild` | core/src/file.rs:140-168 | the digits of a block lead to that block in the tree laid out for it |
| `Layout.LaidContent` | core/src/file.rs:59-123 | any image that holds a file's layout reads back its content with the hole blocks zeroed |
| `Layout.WrittenInode` | core/src/inode.rs:386-452 | an inode written at its place is located and decoded with its mode, links, size and pointers |
| `Layout.WriteThenRead` | core/src/file.rs:47-191 | writing a file's inode, pointer blocks and data at disjoint places inside any image and reading it by number gives its content with hole blocks zeroed, for both versions, both orders and any set of holes |
| `Allocation.LayoutExists` | core/tests/file_indirect.rs:84-257 | for any content and holes within the map's reach, any image with room past the inode can be written without overlap so that the file reads back |
| `Allocation.IndirectFileExists` | core/tests/file_indirect.rs:84-257 | so for every file of forty 4096-byte blocks, which needs an indirect tree, in every image of 2 MiB or more |
| `Scenario.SceneIsLive` | forensic/tests/carve.rs:57-124 | every image that holds the crafted partition's bytes parses to that geometry, and its file is live with that content |
| `Scenario.SceneResidue` | forensic/tests/carve.rs:126-140 | the simulated rm stays off everything that recovery reads, so the recovery theorem applies |
| `Scenario.SceneNamed` | forensic/tests/carve.rs:100-110 | the root lists the name at the edited offset, and the edit stays off the rest of the directory, so the name theorem applies |
| `Scenario.SceneIsRecovered` | forensic/tests/carve.rs:142-191 | what the two tests assert of one content and one name, for every content that fits a block and every name: after the rm, recovery returns inode 6 with that content and reports that name |
| `Scenario.SceneFolds` | core/src/dir.rs:178-187 | on the same partition, folding the file's record into `..` leaves the listing that zeroing its inode number leaves |
| `Scenario.SceneFoldRecovered` | forensic/src/lib.rs:561-617 | folding it away and freeing inode 6 instead, recovery returns the content and the walk collects no name |
| `Scenario.SceneExists` | forensic/tests/carve.rs:57-124 | for each of these contents and names some image holds the bytes, so the hypotheses can be met |
| `TwoRemovals.BothRecovered` | forensic/tests/carve.rs:126-191 | on a partition with two files whose bits share a byte and whose entries share a block, both contents and both names come back after both removals |
| `TwoRemovals.SceneExists` | forensic/tests/carve.rs:57-124 | there is such a partition for any two contents that fit a block |
| `Counterexamples.HiddenInodeIsMissed` | forensic/src/lib.rs:764-775 | on a partition whose root names inode 5 first as a file and then as a directory, inode 7, named in directory 5, is missed |
| `Counterexamples.HiddenInodeIsReported` | forensic/src/lib.rs:479-520 | on that partition the audit reports the named, linked inode 7 as an orphan |
| `Counterexamples.HiddenImageExists` | forensic/tests/common/mod.rs:49-108 | there is such a partition |
| `Counterexamples.LateInodeIsUnlisted` | core/src/dir.rs:227-243 | on a partition whose root has twelve holes and one indirect block, inode 7 is named in the root's content and in no listing |
| `Counterexamples.LateInodeIsReported` | forensic/src/lib.rs:479-520 | on that partition the audit reports the named, linked inode 7 as an orphan |
| `Counterexamples.LateImageExists` | forensic/tests/common/mod.rs:49-108 | there is such a partition |
| `Counterexamples.DeletionsDisagree` | core/src/dir.rs:178-187 | on a partition whose root's first record claims a name longer than its space, zeroing the second entry and folding it away leave different live listings |
| `Counterexamples.GrowImageExists` | forensic/tests/common/mod.rs:49-108 | there is such a partition |
| `Counterexamples.PastReachOccurs` | core/src/file.rs:97-106 | on a partition with one pointer per indirect block, a file of 8192 bytes that passes the size check makes the loop ask for block 15, past the triple reach, and it resolves to a hole |
| `Counterexamples.PastReachReadsZeros` | core/src/file.rs:156-163 | that file reads successfully, its last block as zeros |
| `Counterexamples.NarrowImageExists` | core/src/file.rs:97-106 | there is such a partition |
| `Counterexamples.AuditorRejectsWhatOpens` | forensic/src/lib.rs:397-404 | with any sane superblock at 8192 and a zero magic at 65536, the mounter opens the partition and the audit is the one finding that the magic is invalid |
| `Counterexamples.ForeignImageExists` | forensic/src/lib.rs:390-411 | there is such a partition for every superblock |

## Left out

- The `forensic_vfs` trait plumbing: probing, error mapping, entry kinds, timestamps, sector sizes and reading a source
  into memory. The mounted view starts from an image and a superblock.
- `read_symlink_target`, `read_path_content` and `read_link`: one-line compositions of members that are modelled.
- The SHA-256 stamp of carved content: a function of the content, which is proved.
- Severity, code, note and evidence texts and the conversion to findings: table lookups.
- Names are byte sequences: the lossy UTF-8 decoding of recovered names is not modelled. A path is a byte sequence too.
- Superblock, dinode and group fields that no modelled operation reads (shifts, summaries, times, owners, block counts).
- The error value of `UfsFs::open` when no superblock parses, and the `u32` copy of the group number in findings, which
  is exact because a parsed superblock has at most 2^24 groups.
- Dirent fields of old-format big-endian directories, which the source does not treat apart either.
- The scene of `Scenario` holds the bytes recovery depends on; the backup superblocks, the other groups' headers and the
  fields nothing here reads may be anything.
- Allocation by later writes between deletion and recovery: `Deletion` covers the images where the residue is intact.
