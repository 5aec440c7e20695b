/**
 * The crafted deletion case of forensic/tests/carve.rs, for every content that fits its block and every name: the
 * hypotheses of the recovery theorems hold on it, and some image contains it.
 */
module Scenario {
  import opened Bytes
  import opened Superblocks
  import opened Images
  import opened Inodes
  import opened BlockMap
  import opened Directory
  import opened DirectoryEdits
  import opened Listing
  import opened Traversal
  import opened Groups
  import opened Audit
  import opened Carve
  import opened Frames
  import opened Layout
  import opened Deletion
  import opened LiveView
  import opened FoldDeletion
  import opened Fixtures

  const SECRET: U64 := 6
  const ROOT_BLOCK: nat := 819200
  const FILE_BLOCK: nat := 860160
  const DIRENT: nat := 819224

  // ── the image ──────────────────────────────────────────────────────────────

  ghost predicate NameOk(name: seq<Byte>) {
    0 < |name| <= 255 && name != DOT && name != DOTDOT
  }

  /** The file's record fills the block. */
  ghost function SecretRecord(name: seq<Byte>): (r: Record)
    requires NameOk(name)
    ensures r.Valid() && r.Reclen() == 488
  {
    Record(6, 8, name, Zeros(480 - |name|))
  }

  /** `.`, `..` and the file. */
  ghost function RootRecords(name: seq<Byte>): (rs: seq<Record>)
    requires NameOk(name)
    ensures FillsBlock(rs)
  {
    PrintTwo(Little, Here(2), Parent(2));
    PrintLast(Little, [Here(2), Parent(2)], SecretRecord(name));
    [Here(2), Parent(2)] + [SecretRecord(name)]
  }

  ghost function RootEntries(name: seq<Byte>): seq<DirEntry>
    requires NameOk(name)
  {
    [Here(2).Entry(), Parent(2).Entry(), SecretRecord(name).Entry()]
  }

  ghost function Blocks(content: seq<Byte>, name: seq<Byte>): seq<Write>
    requires NameOk(name)
  {
    [Write(ROOT_BLOCK, Print(Little, RootRecords(name))), Write(FILE_BLOCK, content)]
  }

  /** Inodes 2 and 6 are in use. */
  ghost function Scene(content: seq<Byte>, name: seq<Byte>): seq<Write>
    requires 0 < |content| <= 32768 && NameOk(name)
  {
    Moved(SuperblockWrites(GEOMETRY), SBLOCK_UFS2) + GroupWrites(0x44)
    + InodeWrites(GEOMETRY, UFS_ROOTINO, OneBlockInode(DIR_MODE, 512, 200))
    + InodeWrites(GEOMETRY, SECRET, OneBlockInode(FILE_MODE, |content|, 210))
    + Blocks(content, name)
  }

  /** An image that holds the scene holds each part of it. */
  lemma SceneParts(p: Buffer, content: seq<Byte>, name: seq<Byte>)
    requires 0 < |content| <= 32768 && NameOk(name) && HoldsAll(p, Scene(content, name))
    ensures HoldsAll(p, Moved(SuperblockWrites(GEOMETRY), SBLOCK_UFS2)) && HoldsAll(p, GroupWrites(0x44))
    ensures HoldsAll(p, InodeWrites(GEOMETRY, UFS_ROOTINO, OneBlockInode(DIR_MODE, 512, 200)))
    ensures HoldsAll(p, InodeWrites(GEOMETRY, SECRET, OneBlockInode(FILE_MODE, |content|, 210)))
    ensures HoldsAll(p, Blocks(content, name)) && |p| >= FILE_BLOCK
  {
    hide Holds, SuperblockWrites, GroupWrites, InodeWrites, Moved, Blocks;
    BlocksHeld(p, content, name);
  }

  lemma BlocksHeld(p: Buffer, content: seq<Byte>, name: seq<Byte>)
    requires NameOk(name)
    ensures HoldsAll(p, Blocks(content, name)) ==>
              && Holds(p, Write(ROOT_BLOCK, Print(Little, RootRecords(name))))
              && Holds(p, Write(FILE_BLOCK, content)) && |p| >= FILE_BLOCK
  {
    hide Print;
    var ws := Blocks(content, name);
    assert ws[0] in ws && ws[1] in ws;
  }

  // ── it is a live file ──────────────────────────────────────────────────────

  lemma SceneGroup(p: Buffer)
    requires HoldsAll(p, GroupWrites(0x44)) && |p| >= FILE_BLOCK
    ensures HasBitmap(p, GEOMETRY, 0) && HeaderAt(GEOMETRY, 0) == GROUP_HEADER
    ensures BitByte(p, GEOMETRY, SECRET) == BITMAP
  {
    hide HoldsAll, GroupWrites, BitmapAt, HasBitmap;
    GroupReads(p, 0x44);
  }

  lemma SceneIsLive(p: Buffer, content: Buffer, name: seq<Byte>)
    requires 0 < |content| <= 32768 && NameOk(name) && HoldsAll(p, Scene(content, name))
    ensures LiveFile(p, GEOMETRY, SECRET) && FileAt(p, GEOMETRY, SECRET) == Success(content)
    ensures ReadInode(p, GEOMETRY, SECRET).value.size == |content|
  {
    hide ReadInode, HoldsAll, Holds, Scene, InodeWrites, SuperblockWrites, GroupWrites, ParsePrimarySb, FileContent,
         HasBitmap, Blocks;
    SceneParts(p, content, name);
    BlocksHeld(p, content, name);
    PrimaryParses(p, GEOMETRY);
    SceneGroup(p);
    InodeReads(p, SECRET, FILE_MODE, |content|, 210);
    ContentReads(p, 210, content, ReadInode(p, GEOMETRY, SECRET).value);
  }

  // ── and the edit leaves its residue ────────────────────────────────────────

  /** Edits in the bitmap and in the root's block leave the file's residue. */
  lemma SceneSpared(p: Buffer, content: Buffer, name: seq<Byte>, edits: set<nat>)
    requires 0 < |content| <= 32768 && NameOk(name) && HoldsAll(p, Scene(content, name))
    requires forall x | x in edits :: x == BITMAP || ROOT_BLOCK <= x < FILE_BLOCK
    ensures LiveFile(p, GEOMETRY, SECRET) && ResidueIntact(p, GEOMETRY, SECRET, edits)
  {
    hide ReadInode, HoldsAll, Holds, Scene, InodeWrites, SuperblockWrites, GroupWrites, ParsePrimarySb, FileContent,
         HasBitmap, LiveFile, FileAt, LeafAt, BitByte, ParseAt, Blocks;
    SceneIsLive(p, content, name);
    SceneParts(p, content, name);
    BlocksHeld(p, content, name);
    PrimaryParses(p, GEOMETRY);
    SceneGroup(p);
    InodeReads(p, SECRET, FILE_MODE, |content|, 210);
    ContentReads(p, 210, content, ReadInode(p, GEOMETRY, SECRET).value);
    OneBlockClear(p, 210, ReadInode(p, GEOMETRY, SECRET).value, edits);
  }

  lemma SceneResidue(p: Buffer, content: Buffer, name: seq<Byte>)
    requires 0 < |content| <= 32768 && NameOk(name) && HoldsAll(p, Scene(content, name))
    ensures LiveFile(p, GEOMETRY, SECRET) && HasGroups(GEOMETRY) && DIRENT + 4 <= |p|
    ensures ResidueIntact(p, GEOMETRY, SECRET, UnlinkEdits(p, GEOMETRY, SECRET, DIRENT))
  {
    hide HoldsAll, Scene, SuperblockWrites, GroupWrites, InodeWrites, Blocks, LiveFile, ResidueIntact, BitByte,
         HasBitmap;
    SceneParts(p, content, name);
    SceneGroup(p);
    SceneSpared(p, content, name, UnlinkEdits(p, GEOMETRY, SECRET, DIRENT));
  }

  // ── the name ───────────────────────────────────────────────────────────────

  /** The root's records are its three entries, the file's at byte 24. */
  lemma RootRecordsWalk(name: seq<Byte>)
    requires NameOk(name)
    ensures Entries(RootRecords(name)) == RootEntries(name)
    ensures Walk(Little, Print(Little, RootRecords(name))) == RootEntries(name)
    ensures RecordOffset(Little, Print(Little, RootRecords(name)), 2) == 24
  {
    hide Walk, Print, AllValid, EntryAt;
    var before, after := [Here(2), Parent(2)], [SecretRecord(name)];
    var rs := RootRecords(name);
    PrintTwo(Little, Here(2), Parent(2));
    WalkPrint(Little, rs);
    ValidParts(before, after);
    PrintOffset(Little, before, after);
    EntriesAt(rs, 0);
    EntriesAt(rs, 1);
    EntriesAt(rs, 2);
  }

  /** Nothing below the root is a directory, so the deleted-slot walk visits the root alone. */
  lemma RootAlone(g: Graph, name: seq<Byte>)
    requires NameOk(name) && g(UFS_ROOTINO) == RootEntries(name)
    ensures Collect(g).visited == [UFS_ROOTINO]
  {
    hide Collect, DirsOf;
    DirsOfNone(g(UFS_ROOTINO));
    CollectLeaf(g);
  }

  lemma SceneNamed(p: Buffer, content: Buffer, name: seq<Byte>)
    requires 0 < |content| <= 32768 && NameOk(name) && HoldsAll(p, Scene(content, name))
    ensures NamedEntry(p, GEOMETRY, UFS_ROOTINO, 0, 2, DIRENT)
    ensures SlotOf(p, GEOMETRY, ReadInode(p, GEOMETRY, UFS_ROOTINO).value, 0, 2).name == name
    ensures HasGroups(GEOMETRY) && DirectoriesClear(p, GEOMETRY, SECRET, UFS_ROOTINO, 0, 2, DIRENT)
  {
    hide ReadInode, HoldsAll, Holds, Scene, InodeWrites, SuperblockWrites, GroupWrites, HasBitmap, Blocks, BitByte,
         Collect, DirSlots, Walk, RecordOffset, WalkLen, RootRecords, Print;
    SceneParts(p, content, name);
    BlocksHeld(p, content, name);
    SceneGroup(p);
    InodeReads(p, UFS_ROOTINO, DIR_MODE, 512, 200);
    var dir := ReadInode(p, GEOMETRY, UFS_ROOTINO).value;
    DirectoryReads(p, RootRecords(name), 200, dir);
    RootRecordsWalk(name);
    RootAlone(ListingGraph(p, GEOMETRY), name);
    SceneSlot(p, name, dir);
  }

  lemma SceneSlot(p: Buffer, name: seq<Byte>, dir: Inode)
    requires NameOk(name) && Clip(p, FragByte(GEOMETRY, 200), 512) == Print(Little, RootRecords(name))
    requires dir.size == 512 && dir.direct == [200] + Zeros(11)
    ensures SlotLies(p, GEOMETRY, dir, 0, 2, DIRENT) && WalkLen(GEOMETRY, dir, 0) == 512
    ensures 2 < |DirBlock(p, GEOMETRY, dir)(0)| && SlotOf(p, GEOMETRY, dir, 0, 2) == SecretRecord(name).Entry()
  {
    hide Walk, RecordOffset, RootRecords, Print;
    RootRecordsWalk(name);
    LeftFirst(512, 32768);
    assert dir.direct[0] == 200;
  }

  /**
   * The test's claims, for every content that fits a block and every name: on any image that holds the scene, after
   * the simulated `rm`, recovery returns the file with its content and reports its name.
   */
  lemma SceneIsRecovered(p: Buffer, content: Buffer, name: seq<Byte>)
    requires 0 < |content| <= 32768 && NameOk(name) && HoldsAll(p, Scene(content, name))
    ensures HasBitmap(p, GEOMETRY, Div(SECRET, GEOMETRY.ipg)) && DIRENT + 4 <= |p|
    ensures var found := RecoveredFrom(Unlink(p, GEOMETRY, SECRET, DIRENT));
            && DeletedFile(None, SECRET, |content|, content) in found
            && DeletedDirent(DeletedName(name, 0)) in found
  {
    hide LiveFile, ResidueIntact, HoldsAll, Scene, RecoveredFrom, Unlink, NamedEntry, DirectoriesClear, PrimaryClear;
    SceneIsLive(p, content, name);
    SceneResidue(p, content, name);
    SceneNamed(p, content, name);
    SceneClear(p, content, name);
    DeleteThenCarve(p, GEOMETRY, SECRET, DIRENT);
    DeletedNameIsRecovered(p, GEOMETRY, SECRET, UFS_ROOTINO, 0, 2, DIRENT);
  }

  lemma SceneClear(p: Buffer, content: Buffer, name: seq<Byte>)
    requires 0 < |content| <= 32768 && NameOk(name) && HoldsAll(p, Scene(content, name))
    ensures LiveFile(p, GEOMETRY, SECRET) && HasBitmap(p, GEOMETRY, Div(SECRET, GEOMETRY.ipg))
    ensures PrimaryClear(p, UnlinkEdits(p, GEOMETRY, SECRET, DIRENT))
  {
    hide ReadInode, HoldsAll, Scene, HasBitmap, FileAt, PrimaryClear, ParsePrimarySb, HeaderClear, InodeClear,
         FileClear, UnlinkEdits;
    SceneIsLive(p, content, name);
    SceneResidue(p, content, name);
  }

  // ── the other way of deleting it ───────────────────────────────────────────

  lemma RootLengths(name: seq<Byte>)
    requires NameOk(name)
    ensures var block := Print(Little, RootRecords(name));
            && |Walk(Little, block)| == 3 && RecordOffset(Little, block, 1) == 12
            && RecLenAt(Little, block, 1) == 12 && RecLenAt(Little, block, 2) == 488 && NameFits(Little, block, 1)
  {
    hide Walk, Print, AllValid, EntryAt, RecordOffset, RecLenAt, NameFits;
    var here, parent, secret := Here(2), Parent(2), SecretRecord(name);
    RootRecordsWalk(name);
    assert RootRecords(name) == [here] + ([parent] + [secret]) == [here, parent] + ([secret] + []);
    PrintTwo(Little, here, parent);
    PrintNothing(Little);
    ValidOne(here);
    ValidOne(secret);
    ValidParts([here], [parent] + [secret]);
    PrintLast(Little, [], here);
    assert [] + [here] == [here];
    PrintedLength(Little, [here], parent, [secret]);
    PrintedLength(Little, [here, parent], secret, []);
    PrintOffset(Little, [here], [parent] + [secret]);
  }

  /** On the scene, folding the file's entry into `..` leaves the listing that zeroing its inode number leaves. */
  lemma SceneFolds(p: Buffer, content: Buffer, name: seq<Byte>)
    requires 0 < |content| <= 32768 && NameOk(name) && HoldsAll(p, Scene(content, name))
    ensures ReadInode(p, GEOMETRY, UFS_ROOTINO).Success? && DIRENT + 4 <= |p|
    ensures var dir := ReadInode(p, GEOMETRY, UFS_ROOTINO).value;
            && Foldable(p, GEOMETRY, dir, 0, 2, DIRENT)
            && ListDir(Zeroed(p, DIRENT), GEOMETRY, UFS_ROOTINO)
                 == ListDir(Folded(p, GEOMETRY, dir, 0, 2, DIRENT), GEOMETRY, UFS_ROOTINO)
  {
    hide ReadInode, HoldsAll, Holds, Scene, InodeWrites, SuperblockWrites, GroupWrites, Blocks, ListDir, Zeroed, Folded,
         Walk, RecordOffset, WalkLen, RootRecords, Print, RecLenAt, NameFits;
    SceneParts(p, content, name);
    BlocksHeld(p, content, name);
    InodeReads(p, UFS_ROOTINO, DIR_MODE, 512, 200);
    var dir := ReadInode(p, GEOMETRY, UFS_ROOTINO).value;
    DirectoryReads(p, RootRecords(name), 200, dir);
    SceneSlot(p, name, dir);
    RootLengths(name);
    SceneFoldable(p, name, dir);
    ListingsAgreeIff(p, GEOMETRY, UFS_ROOTINO, 0, 2, DIRENT);
  }

  lemma SceneFoldable(p: Buffer, name: seq<Byte>, dir: Inode)
    requires NameOk(name) && Clip(p, FragByte(GEOMETRY, 200), 512) == Print(Little, RootRecords(name))
    requires dir.size == 512 && dir.direct == [200] + Zeros(11) && InodeOffset(GEOMETRY, UFS_ROOTINO) == 164352
    requires ReadInode(p, GEOMETRY, UFS_ROOTINO) == Success(dir)
    ensures BlockAt(p, GEOMETRY, dir, 0) == Print(Little, RootRecords(name))
    ensures Foldable(p, GEOMETRY, dir, 0, 2, DIRENT) && OthersClear(p, GEOMETRY, UFS_ROOTINO, 0, 2, DIRENT)
  {
    hide ReadInode, Walk, RecordOffset, WalkLen, RootRecords, Print, RecLenAt, NameFits, SlotLies;
    SceneSlot(p, name, dir);
    RootLengths(name);
    assert dir.direct[0] == 200;
  }

  /** The folded entry is a live file's, after a record whose name fits; the edit is the field and the bit. */
  lemma SceneFoldedEntry(p: Buffer, name: seq<Byte>, dir: Inode)
    requires NameOk(name) && Clip(p, FragByte(GEOMETRY, 200), 512) == Print(Little, RootRecords(name))
    requires dir.size == 512 && dir.direct == [200] + Zeros(11) && InodeOffset(GEOMETRY, UFS_ROOTINO) == 164352
    requires ReadInode(p, GEOMETRY, UFS_ROOTINO) == Success(dir) && BitByte(p, GEOMETRY, SECRET) == BITMAP
    ensures HasGroups(GEOMETRY) && FoldedEntry(p, GEOMETRY, dir, 0, 2, DIRENT)
    ensures FoldEdits(p, GEOMETRY, SECRET, dir, 0, 2, DIRENT) == {819216, 819217, BITMAP}
  {
    hide ReadInode, Walk, RecordOffset, WalkLen, RootRecords, Print, RecLenAt, NameFits, SlotLies, BitByte, DirBlock;
    SceneSlot(p, name, dir);
    RootLengths(name);
    SceneFoldable(p, name, dir);
  }

  lemma SceneWalkClear(p: Buffer, name: seq<Byte>, dir: Inode)
    requires dir.size == 512 && dir.direct == [200] + Zeros(11) && InodeOffset(GEOMETRY, UFS_ROOTINO) == 164352
    requires ReadInode(p, GEOMETRY, UFS_ROOTINO) == Success(dir) && BitByte(p, GEOMETRY, SECRET) == BITMAP
    requires Collect(ListingGraph(p, GEOMETRY)).visited == [UFS_ROOTINO]
    requires HasGroups(GEOMETRY) && FoldedEntry(p, GEOMETRY, dir, 0, 2, DIRENT)
    requires FoldEdits(p, GEOMETRY, SECRET, dir, 0, 2, DIRENT) == {819216, 819217, BITMAP}
    ensures WalkClear(p, GEOMETRY, SECRET, UFS_ROOTINO, dir, 0, 2, DIRENT)
  {
    hide ReadInode, FoldedEntry, FoldEdits, Collect, ListingGraph, BitByte;
    LeftFirst(512, 32768);
    assert dir.direct[0] == 200;
  }

  /** Recovering after a fold: the file's content, and no name at all. */
  lemma SceneFoldRecovered(p: Buffer, content: Buffer, name: seq<Byte>) returns (dir: Inode)
    requires 0 < |content| <= 32768 && NameOk(name) && HoldsAll(p, Scene(content, name))
    ensures HasBitmap(p, GEOMETRY, Div(SECRET, GEOMETRY.ipg)) && ReadInode(p, GEOMETRY, UFS_ROOTINO) == Success(dir)
    ensures HasGroups(GEOMETRY) && FoldedEntry(p, GEOMETRY, dir, 0, 2, DIRENT)
    ensures var q := FoldAway(p, GEOMETRY, SECRET, dir, 0, 2, DIRENT);
            && DeletedFile(None, SECRET, |content|, content) in RecoveredFrom(q)
            && Collect(ListingGraph(q, GEOMETRY)).deleted == []
  {
    hide ReadInode, HoldsAll, Holds, Scene, InodeWrites, SuperblockWrites, GroupWrites, Blocks, ParsePrimarySb, HasBitmap,
         RootRecords, Print, FoldedEntry, FoldEdits, FoldAway, WalkClear, LiveFile, FileAt, BitByte, LeafAt, ParseAt,
         Collect, DirSlots, RecoveredFrom, ResidueIntact;
    SceneIsLive(p, content, name);
    SceneParts(p, content, name);
    BlocksHeld(p, content, name);
    SceneGroup(p);
    InodeReads(p, UFS_ROOTINO, DIR_MODE, 512, 200);
    dir := ReadInode(p, GEOMETRY, UFS_ROOTINO).value;
    DirectoryReads(p, RootRecords(name), 200, dir);
    RootRecordsWalk(name);
    RootAlone(ListingGraph(p, GEOMETRY), name);
    SceneFoldedEntry(p, name, dir);
    SceneWalkClear(p, name, dir);
    SceneSpared(p, content, name, {819216, 819217, BITMAP});
    FoldThenRecover(p, GEOMETRY, SECRET, UFS_ROOTINO, dir, 0, 2, DIRENT);
    NoneDeleted(ListingGraph(p, GEOMETRY), name);
  }

  lemma NoneDeleted(g: Graph, name: seq<Byte>)
    requires NameOk(name) && g(UFS_ROOTINO) == RootEntries(name) && Collect(g).visited == [UFS_ROOTINO]
    ensures Collect(g).deleted == []
  {
    hide Collect, DeletedOf;
    CollectOnAnyGraph(g);
    NoResidual(g(UFS_ROOTINO));
    NoneDeletedIn(g, [UFS_ROOTINO]);
  }

  // ── there is such an image ─────────────────────────────────────────────────

  lemma SceneInOrder(content: seq<Byte>, name: seq<Byte>)
    requires 0 < |content| <= 32768 && NameOk(name)
    ensures InOrder(Scene(content, name), 0, FILE_BLOCK + 32768)
  {
    hide InOrder, InodeWrites, SuperblockWrites, GroupWrites, Moved, Blocks;
    var head := Moved(SuperblockWrites(GEOMETRY), SBLOCK_UFS2) + GroupWrites(0x44);
    var root := InodeWrites(GEOMETRY, UFS_ROOTINO, OneBlockInode(DIR_MODE, 512, 200));
    var file := InodeWrites(GEOMETRY, SECRET, OneBlockInode(FILE_MODE, |content|, 210));
    var blocks := Blocks(content, name);
    HeadersInOrder(0x44);
    InodeInOrder(UFS_ROOTINO, OneBlockInode(DIR_MODE, 512, 200));
    InodeInOrder(SECRET, OneBlockInode(FILE_MODE, |content|, 210));
    BlocksInOrder(content, name);
    InOrderWiden(root, INODE_TABLE + 512, INODE_TABLE + 768, INODE_TABLE, INODE_TABLE + 1536);
    InOrderAppend(head, root, 0, INODE_TABLE, INODE_TABLE + 1536);
    InOrderAppend(head + root, file, 0, INODE_TABLE + 1536, INODE_TABLE + 1792);
    InOrderWiden(head + root + file, 0, INODE_TABLE + 1792, 0, ROOT_BLOCK);
    InOrderAppend(head + root + file, blocks, 0, ROOT_BLOCK, FILE_BLOCK + 32768);
  }

  lemma BlocksInOrder(content: seq<Byte>, name: seq<Byte>)
    requires 0 < |content| <= 32768 && NameOk(name)
    ensures InOrder(Blocks(content, name), ROOT_BLOCK, FILE_BLOCK + 32768)
  {
    hide Print;
    var rs := RootRecords(name);
  }

  /** Some image holds the scene, so what is proved of such images is not empty. */
  lemma SceneExists(content: seq<Byte>, name: seq<Byte>)
    requires 0 < |content| <= 32768 && NameOk(name)
    ensures exists p: Buffer :: HoldsAll(p, Scene(content, name))
  {
    hide InOrder, HoldsAll, Scene;
    SceneInOrder(content, name);
    SomeImageHolds(Scene(content, name), FILE_BLOCK + 32768);
  }
}
