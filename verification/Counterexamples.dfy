/**
 * Partitions on which the code does what its comments or its other half rule out: a reachable inode reported as an
 * orphan, a file longer than its block map, and an auditor that rejects what the mounter opens.
 */
module Counterexamples {
  import opened Bytes
  import opened Gathering
  import opened Superblocks
  import opened Images
  import opened Inodes
  import opened Radix
  import opened BlockMap
  import opened Directory
  import opened DirectoryEdits
  import opened Listing
  import opened Traversal
  import opened Completeness
  import opened Contents
  import opened Groups
  import opened Audit
  import opened LiveView
  import opened Layout
  import opened Fixtures

  // ── a directory met first as a file ────────────────────────────────────────

  /** The root names inode 5 as `a`, a regular file, then as `b`, a directory; directory 5 names inode 7. */
  const FIRST: Record := Record(5, 8, [97], Zeros(3))
  const SECOND: Record := Record(5, 4, [98], Zeros(467))
  const DEEPER: Record := Record(7, 8, [99], Zeros(479))

  ghost function RootRecords(): (rs: seq<Record>)
    ensures FillsBlock(rs) && |rs| == 4
    ensures rs[0] == Here(2) && rs[1] == Parent(2) && rs[2] == FIRST && rs[3] == SECOND
  {
    PrintTwo(Little, Here(2), Parent(2));
    PrintLast(Little, [Here(2), Parent(2)], FIRST);
    PrintLast(Little, [Here(2), Parent(2)] + [FIRST], SECOND);
    [Here(2), Parent(2)] + [FIRST] + [SECOND]
  }

  ghost function SubRecords(): (rs: seq<Record>)
    ensures FillsBlock(rs) && |rs| == 3 && rs[2] == DEEPER
  {
    PrintTwo(Little, Here(5), Parent(2));
    PrintLast(Little, [Here(5), Parent(2)], DEEPER);
    [Here(5), Parent(2)] + [DEEPER]
  }

  ghost function HiddenBlocks(): seq<Write> {
    [Write(DATA, Print(Little, RootRecords())), Write(DATA + 4096, Print(Little, SubRecords()))]
  }

  /** Inodes 2, 5 and 7 are in use, and each has a link. */
  ghost function HiddenScene(): seq<Write> {
    Moved(SuperblockWrites(GEOMETRY), SBLOCK_UFS2) + GroupWrites(0xA4)
    + InodeWrites(GEOMETRY, 2, OneBlockInode(DIR_MODE, 512, 200))
    + InodeWrites(GEOMETRY, 5, OneBlockInode(DIR_MODE, 512, 201))
    + InodeWrites(GEOMETRY, 7, OneBlockInode(FILE_MODE, 0, 0))
    + HiddenBlocks()
  }

  lemma HiddenParts(p: Buffer)
    requires HoldsAll(p, HiddenScene())
    ensures HoldsAll(p, Moved(SuperblockWrites(GEOMETRY), SBLOCK_UFS2)) && HoldsAll(p, GroupWrites(0xA4))
    ensures HoldsAll(p, InodeWrites(GEOMETRY, 2, OneBlockInode(DIR_MODE, 512, 200)))
    ensures HoldsAll(p, InodeWrites(GEOMETRY, 5, OneBlockInode(DIR_MODE, 512, 201)))
    ensures HoldsAll(p, InodeWrites(GEOMETRY, 7, OneBlockInode(FILE_MODE, 0, 0)))
    ensures HoldsAll(p, HiddenBlocks())
  {
    hide Holds, SuperblockWrites, GroupWrites, InodeWrites, Moved, HiddenBlocks;
  }

  lemma HiddenBlocksHeld(p: Buffer)
    requires HoldsAll(p, HiddenBlocks())
    ensures Holds(p, Write(DATA, Print(Little, RootRecords())))
    ensures Holds(p, Write(DATA + 4096, Print(Little, SubRecords()))) && |p| >= DATA
  {
    hide Print;
    var ws := HiddenBlocks();
    assert ws[0] in ws && ws[1] in ws;
  }

  /** Directory 2 lists its four records, directory 5 its three. */
  lemma HiddenListings(p: Buffer)
    requires HoldsAll(p, HiddenScene())
    ensures var g := ListingGraph(p, GEOMETRY);
            g(2) == Entries(RootRecords()) && g(5) == Entries(SubRecords())
  {
    hide ReadInode, HoldsAll, Holds, HiddenScene, InodeWrites, SuperblockWrites, GroupWrites, Moved, HiddenBlocks,
         RootRecords, SubRecords, FillsBlock, Entries, DirSlots, Print;
    HiddenParts(p);
    HiddenBlocksHeld(p);
    InodeReads(p, 2, DIR_MODE, 512, 200);
    InodeReads(p, 5, DIR_MODE, 512, 201);
    DirectoryReads(p, RootRecords(), 200, ReadInode(p, GEOMETRY, 2).value);
    DirectoryReads(p, SubRecords(), 201, ReadInode(p, GEOMETRY, 5).value);
  }

  lemma HiddenEntries()
    ensures Entries(RootRecords()) == [Here(2).Entry(), Parent(2).Entry()] + [FIRST.Entry(), SECOND.Entry()]
    ensures |Entries(SubRecords())| == 3 && Entries(SubRecords())[2] == DEEPER.Entry()
  {
    hide Entries, RootRecords, SubRecords, FillsBlock;
    FourEntries(RootRecords());
    EntriesAt(SubRecords(), 2);
  }

  lemma FourEntries(rs: seq<Record>)
    requires |rs| == 4
    ensures Entries(rs) == [rs[0].Entry(), rs[1].Entry()] + [rs[2].Entry(), rs[3].Entry()]
  {
    hide Entries;
    EntriesAt(rs, 0);
    EntriesAt(rs, 1);
    EntriesAt(rs, 2);
    EntriesAt(rs, 3);
  }

  /** Inode 7 is named at the end of a chain of DT_DIR entries, and the walk misses it. */
  lemma HiddenInodeIsMissed(p: Buffer)
    requires HoldsAll(p, HiddenScene())
    ensures var g := ListingGraph(p, GEOMETRY);
            Named(g, 7) && 7 !in Reach(g).reachable
  {
    hide HoldsAll, HiddenScene, Entries, RootRecords, SubRecords, Reach, InClosure, ListDirAll;
    var g := ListingGraph(p, GEOMETRY);
    HiddenListings(p);
    HiddenEntries();
    assert DEEPER.Entry() in g(5) && Visible(DEEPER.Entry()) by {
      assert DEEPER.Entry().name[0] != DOT[0] && DEEPER.Entry().name[0] != DOTDOT[0];
    }
    assert FIRST.Entry().name[0] != DOT[0] && FIRST.Entry().name[0] != DOTDOT[0];
    assert SECOND.Entry().name[0] != DOT[0] && SECOND.Entry().name[0] != DOTDOT[0];
    FirstSightingHides(g, [Here(2).Entry(), Parent(2).Entry()], FIRST.Entry(), SECOND.Entry(), 7);
  }

  /**
   * On an image that covers its four groups, the audit reports this linked, named inode as an orphan.
   */
  lemma HiddenInodeIsReported(p: Buffer)
    requires HoldsAll(p, HiddenScene()) && |p| > 3 * 256 * 4096
    ensures Named(ListingGraph(p, GEOMETRY), 7) && OrphanedInode(7, 1) in AuditOf(p)
  {
    hide ReadInode, HoldsAll, HiddenScene, InodeWrites, SuperblockWrites, GroupWrites, Moved, Reach, ListingGraph,
         InodeUsed, Named, ParsePrimarySb, Orphans, AllGroupFindings;
    HiddenParts(p);
    HiddenInodeIsMissed(p);
    PrimaryParses(p, GEOMETRY);
    BitReads(p, 0xA4, 7);
    BitSeven();
    InodeReads(p, 7, FILE_MODE, 0, 0);
    OrphansExact(p, GEOMETRY);
  }

  lemma BitSeven()
    ensures Shr(0xA4, 7) % 2 == 1 && Shr(0x84, 7) % 2 == 1
  {
    assert Shr(0xA4, 7) == Shr(0x52, 6) == Shr(0x29, 5) == Shr(0x14, 4) == Shr(0xA, 3);
    assert Shr(0x84, 7) == Shr(0x42, 6) == Shr(0x21, 5) == Shr(0x10, 4) == Shr(0x8, 3);
  }

  lemma HiddenInOrder()
    ensures InOrder(HiddenScene(), 0, DATA + 8192)
  {
    hide InOrder, InodeWrites, SuperblockWrites, GroupWrites, Moved, HiddenBlocks;
    var head := Moved(SuperblockWrites(GEOMETRY), SBLOCK_UFS2) + GroupWrites(0xA4);
    var i2 := InodeWrites(GEOMETRY, 2, OneBlockInode(DIR_MODE, 512, 200));
    var i5 := InodeWrites(GEOMETRY, 5, OneBlockInode(DIR_MODE, 512, 201));
    var i7 := InodeWrites(GEOMETRY, 7, OneBlockInode(FILE_MODE, 0, 0));
    HeadersInOrder(0xA4);
    InodeInOrder(2, OneBlockInode(DIR_MODE, 512, 200));
    InodeInOrder(5, OneBlockInode(DIR_MODE, 512, 201));
    InodeInOrder(7, OneBlockInode(FILE_MODE, 0, 0));
    InOrderWiden(i2, INODE_TABLE + 512, INODE_TABLE + 768, INODE_TABLE, INODE_TABLE + 1280);
    InOrderAppend(head, i2, 0, INODE_TABLE, INODE_TABLE + 1280);
    InOrderWiden(i5, INODE_TABLE + 1280, INODE_TABLE + 1536, INODE_TABLE + 1280, INODE_TABLE + 1792);
    InOrderAppend(head + i2, i5, 0, INODE_TABLE + 1280, INODE_TABLE + 1792);
    InOrderWiden(i7, INODE_TABLE + 1792, INODE_TABLE + 2048, INODE_TABLE + 1792, DATA);
    InOrderAppend(head + i2 + i5, i7, 0, INODE_TABLE + 1792, DATA);
    HiddenBlocksInOrder();
    InOrderAppend(head + i2 + i5 + i7, HiddenBlocks(), 0, DATA, DATA + 8192);
  }

  lemma HiddenBlocksInOrder()
    ensures InOrder(HiddenBlocks(), DATA, DATA + 8192)
  {
    hide Print;
    var a, b := RootRecords(), SubRecords();
  }

  lemma HiddenImageExists()
    ensures exists p: Buffer :: |p| > 3 * 256 * 4096 && HoldsAll(p, HiddenScene())
  {
    hide InOrder, HoldsAll, HiddenScene;
    HiddenInOrder();
    InOrderWiden(HiddenScene(), 0, DATA + 8192, 0, 0x40_0000);
    SomeImageHolds(HiddenScene(), 0x40_0000);
  }

  // ── a name past a directory's direct blocks ────────────────────────────────

  const INDIRECT_BLOCK: nat := 860160
  const LATE_BLOCK: nat := 864256

  /** A root of twelve holes and one block behind the single-indirect pointer. */
  const LATE_ROOT: Inode := Inode(Ufs2, DIR_MODE, Directory, 1, 393728, Zeros(12), [210, 0, 0], None)

  /** The indirect block points at fragment 211, where the root's thirteenth block names inode 7. */
  ghost function LateBlocks(): seq<Write> {
    [Write(INDIRECT_BLOCK, Encode(Little, 8, 211)), Write(LATE_BLOCK, Print(Little, SubRecords()))]
  }

  /** Inodes 2 and 7 are in use, and each has a link. */
  ghost function LateScene(): seq<Write> {
    Moved(SuperblockWrites(GEOMETRY), SBLOCK_UFS2) + GroupWrites(0x84)
    + InodeWrites(GEOMETRY, 2, LATE_ROOT)
    + InodeWrites(GEOMETRY, 7, OneBlockInode(FILE_MODE, 0, 0))
    + LateBlocks()
  }

  lemma LateParts(p: Buffer)
    requires HoldsAll(p, LateScene())
    ensures HoldsAll(p, Moved(SuperblockWrites(GEOMETRY), SBLOCK_UFS2)) && HoldsAll(p, GroupWrites(0x84))
    ensures HoldsAll(p, InodeWrites(GEOMETRY, 2, LATE_ROOT))
    ensures HoldsAll(p, InodeWrites(GEOMETRY, 7, OneBlockInode(FILE_MODE, 0, 0)))
    ensures HoldsAll(p, LateBlocks())
  {
    hide Holds, SuperblockWrites, GroupWrites, InodeWrites, Moved, LateBlocks;
  }

  lemma LateBlocksHeld(p: Buffer)
    requires HoldsAll(p, LateBlocks())
    ensures Holds(p, Write(INDIRECT_BLOCK, Encode(Little, 8, 211)))
    ensures Holds(p, Write(LATE_BLOCK, Print(Little, SubRecords()))) && |p| >= LATE_BLOCK
  {
    hide Print, Encode;
    var ws := LateBlocks();
    assert ws[0] in ws && ws[1] in ws;
  }

  lemma LateRootReads(p: Buffer)
    requires HoldsAll(p, InodeWrites(GEOMETRY, 2, LATE_ROOT)) && |p| >= DATA
    ensures var r := ReadInode(p, GEOMETRY, 2);
            && r.Success? && r.value.size == 393728
            && r.value.direct == LATE_ROOT.direct && r.value.indirect == LATE_ROOT.indirect
  {
    hide ReadInode, HoldsAll, InodeWrites;
    Pow256Values();
    WrittenInode(p, GEOMETRY, 2, LATE_ROOT);
  }

  /** Block 12 of the root is the block at fragment 211. */
  lemma LateLeaf(p: Buffer, root: Inode)
    requires Holds(p, Write(INDIRECT_BLOCK, Encode(Little, 8, 211))) && root.indirect == LATE_ROOT.indirect
    ensures LeafAt(p, GEOMETRY, root, 4096, 12) == 211
  {
    hide Encode, Decode;
    Pow256Values();
    DigitsOf(4096, 0);
    assert Base(4096, 1) == 12 && Base(4096, 2) == 4108;
    Follow1(p, GEOMETRY, 210, 0);
    StoredUint(p, Little, INDIRECT_BLOCK, 8, 211);
  }

  lemma LateChunk(p: Buffer, root: Inode)
    requires HoldsAll(p, LateBlocks()) && root.size == 393728 <= |p| && root.indirect == LATE_ROOT.indirect
    ensures DivCeil(root.size, GEOMETRY.bsize) == 13
    ensures Chunks(p, GEOMETRY, root)(12) == Entries(SubRecords())
  {
    hide HoldsAll, LateBlocks, Walk, Print, SubRecords, Entries, FileBytes, LeafAt, BlockBytes, Encode;
    var rs := SubRecords();
    LateBlocksHeld(p);
    LateLeaf(p, root);
    FileBlock(p, GEOMETRY, root, 12, 393216, 512);
    PresentBlock(p, GEOMETRY, 211, Print(Little, rs));
    WalkPrint(Little, rs);
    assert Left(393728, 32768, 12) == 512;
  }

  /** Inode 7 is named in the root's content, and by no listing. */
  lemma LateInodeIsUnlisted(p: Buffer)
    requires HoldsAll(p, LateScene()) && |p| >= 393728
    ensures Named(ContentGraph(p, GEOMETRY), 7) && !Named(ListingGraph(p, GEOMETRY), 7)
  {
    hide HoldsAll, LateScene, LateBlocks, InodeWrites, SuperblockWrites, GroupWrites, Moved, Entries, SubRecords,
         ReadInode, DivCeil, Chunks, DirSlots, Gather, InClosure;
    LateParts(p);
    LateBlocksHeld(p);
    LateRootReads(p);
    var root := ReadInode(p, GEOMETRY, 2).value;
    LateChunk(p, root);
    var g, h := ListingGraph(p, GEOMETRY), ContentGraph(p, GEOMETRY);
    LateListing(p, root);
    EntriesAt(SubRecords(), 2);
    GatherMember(Chunks(p, GEOMETRY, root), 13, DEEPER.Entry());
    assert Visible(DEEPER.Entry()) by {
      assert DEEPER.Entry().name[0] != DOT[0] && DEEPER.Entry().name[0] != DOTDOT[0];
    }
    RootInClosure(h);
    assert Names(h, 2, 7);
    BarrenRoot(g);
  }

  lemma LateListing(p: Buffer, root: Inode)
    requires root.direct == LATE_ROOT.direct
    ensures DirSlots(p, GEOMETRY, root) == []
  {
    hide Gather, Walk, Left;
    var f := DirBlock(p, GEOMETRY, root);
    forall j: nat | j < UFS_NDADDR
      ensures f(j) == []
    {
      assert root.direct[j] == 0;
    }
    GatherNone(f);
    GatherNoMore(f, 0, UFS_NDADDR);
  }

  /** A root without slots names nothing but itself. */
  lemma BarrenRoot(g: Graph)
    requires g(UFS_ROOTINO) == []
    ensures forall x :: Named(g, x) <==> x == UFS_ROOTINO
  {
    hide InClosure;
    forall d | InClosure(g, d)
      ensures d in [UFS_ROOTINO]
    {
      ClosureContained(g, [UFS_ROOTINO], d);
    }
  }

  /** The audit reports this linked inode as an orphan, although the root's thirteenth block names it. */
  lemma LateInodeIsReported(p: Buffer)
    requires HoldsAll(p, LateScene()) && |p| > 3 * 256 * 4096
    ensures Named(ContentGraph(p, GEOMETRY), 7) && OrphanedInode(7, 1) in AuditOf(p)
  {
    hide ReadInode, HoldsAll, LateScene, InodeWrites, SuperblockWrites, GroupWrites, Moved, Reach, ListingGraph,
         ContentGraph, InodeUsed, Named, ParsePrimarySb, Orphans, AllGroupFindings;
    LateParts(p);
    LateInodeIsUnlisted(p);
    PrimaryParses(p, GEOMETRY);
    BitReads(p, 0x84, 7);
    BitSeven();
    InodeReads(p, 7, FILE_MODE, 0, 0);
    NoOrphanIsMissed(p, GEOMETRY, 7);
  }

  lemma LateInOrder()
    ensures InOrder(LateScene(), 0, LATE_BLOCK + 512)
  {
    hide InOrder, InodeWrites, SuperblockWrites, GroupWrites, Moved, LateBlocks;
    var head := Moved(SuperblockWrites(GEOMETRY), SBLOCK_UFS2) + GroupWrites(0x84);
    var i2 := InodeWrites(GEOMETRY, 2, LATE_ROOT);
    var i7 := InodeWrites(GEOMETRY, 7, OneBlockInode(FILE_MODE, 0, 0));
    HeadersInOrder(0x84);
    InodeInOrder(2, LATE_ROOT);
    InodeInOrder(7, OneBlockInode(FILE_MODE, 0, 0));
    LateBlocksInOrder();
    InOrderWiden(i2, INODE_TABLE + 512, INODE_TABLE + 768, INODE_TABLE, INODE_TABLE + 1792);
    InOrderAppend(head, i2, 0, INODE_TABLE, INODE_TABLE + 1792);
    InOrderWiden(i7, INODE_TABLE + 1792, INODE_TABLE + 2048, INODE_TABLE + 1792, INDIRECT_BLOCK);
    InOrderAppend(head + i2, i7, 0, INODE_TABLE + 1792, INDIRECT_BLOCK);
    InOrderAppend(head + i2 + i7, LateBlocks(), 0, INDIRECT_BLOCK, LATE_BLOCK + 512);
  }

  lemma LateBlocksInOrder()
    ensures InOrder(LateBlocks(), INDIRECT_BLOCK, LATE_BLOCK + 512)
  {
    hide Print, Encode;
    var rs := SubRecords();
  }

  lemma LateImageExists()
    ensures exists p: Buffer :: |p| > 3 * 256 * 4096 && HoldsAll(p, LateScene())
  {
    hide InOrder, HoldsAll, LateScene;
    LateInOrder();
    InOrderWiden(LateScene(), 0, LATE_BLOCK + 512, 0, 0x40_0000);
    SomeImageHolds(LateScene(), 0x40_0000);
  }

  // ── a name that grows over a folded entry ──────────────────────────────────

  /** A live record of eight bytes that claims a one-byte name, then a record that fills the block. */
  const CLAIMS: seq<Byte> := [2, 0, 0, 0, 8, 0, 4, 1]
  const FOLLOWS: seq<Byte> := [6, 0, 0, 0, 0xF8, 1, 8, 0]

  function GrowBlock(): (s: Buffer)
    ensures |s| == 512
  {
    CLAIMS + FOLLOWS + Zeros(496)
  }

  lemma TwoBytes(a: Byte, b: Byte)
    ensures Decode(Little, [a, b]) == a + 256 * b
  {
    assert [a, b][1..] == [b] && [b][1..] == [];
  }

  /** The block's two slots, their lengths, and the name that does not fit. */
  lemma GrowWalk()
    ensures var s := GrowBlock();
            && |Walk(Little, s)| == 2 && !Walk(Little, s)[0].deleted && RecordOffset(Little, s, 1) == 8
            && RecLenAt(Little, s, 0) == 8 && RecLenAt(Little, s, 1) == 504 && !NameFits(Little, s, 0)
  {
    hide Walk, Decode;
    var s := GrowBlock();
    var rest: Buffer := s[8..];
    assert rest == FOLLOWS + Zeros(496);
    TwoBytes(8, 0);
    TwoBytes(0xF8, 1);
    assert s[4..6] == [8, 0] && rest[4..6] == [0xF8, 1];
    assert RecLen(Little, s) == 8 && RecLen(Little, rest) == 504;
    WalkUnfold(Little, s);
    WalkUnfold(Little, rest);
    assert rest[504..] == [];
    WalkNothing(Little, []);
    LiveTwo(s[0..4]);
    assert s[0..] == s && s[7] == 1;
  }

  lemma LiveTwo(s: seq<Byte>)
    requires s == [2, 0, 0, 0]
    ensures Decode(Little, s) == 2
  {
    Decode4(s);
  }

  ghost function GrowScene(): seq<Write> {
    Moved(SuperblockWrites(GEOMETRY), SBLOCK_UFS2) + GroupWrites(0x44)
    + InodeWrites(GEOMETRY, 2, OneBlockInode(DIR_MODE, 512, 200))
    + [Write(DATA, GrowBlock())]
  }

  lemma GrowParts(p: Buffer)
    requires HoldsAll(p, GrowScene())
    ensures HoldsAll(p, Moved(SuperblockWrites(GEOMETRY), SBLOCK_UFS2))
    ensures HoldsAll(p, InodeWrites(GEOMETRY, 2, OneBlockInode(DIR_MODE, 512, 200)))
    ensures Holds(p, Write(DATA, GrowBlock())) && |p| >= DATA + 512
  {
    hide SuperblockWrites, GroupWrites, InodeWrites, Moved;
    var last := [Write(DATA, GrowBlock())];
    assert last[0] in GrowScene();
  }

  /** The root's only block is that block. */
  lemma GrowSlot(p: Buffer, dir: Inode)
    requires Holds(p, Write(DATA, GrowBlock())) && ReadInode(p, GEOMETRY, 2) == Success(dir)
    requires dir.size == 512 && dir.direct == [200] + Zeros(11) && InodeOffset(GEOMETRY, 2) == 164352
    ensures BlockAt(p, GEOMETRY, dir, 0) == GrowBlock()
    ensures Foldable(p, GEOMETRY, dir, 0, 1, DATA + 8) && OthersClear(p, GEOMETRY, 2, 0, 1, DATA + 8)
  {
    hide ReadInode, Walk, RecordOffset, GrowBlock, RecLenAt, NameFits;
    GrowWalk();
    LeftFirst(512, 32768);
    assert dir.direct[0] == 200;
    assert Clip(p, FragByte(GEOMETRY, 200), 512) == GrowBlock();
  }

  /** Zeroing the second entry's inode number and folding it away leave different live listings of the root. */
  lemma DeletionsDisagree(p: Buffer) returns (dir: Inode)
    requires HoldsAll(p, GrowScene())
    ensures ParsePrimarySb(p) == Success(GEOMETRY) && ReadInode(p, GEOMETRY, 2) == Success(dir)
    ensures DATA + 12 <= |p| && Foldable(p, GEOMETRY, dir, 0, 1, DATA + 8)
    ensures ListDir(Zeroed(p, DATA + 8), GEOMETRY, 2) != ListDir(Folded(p, GEOMETRY, dir, 0, 1, DATA + 8), GEOMETRY, 2)
  {
    hide ReadInode, HoldsAll, Holds, GrowScene, InodeWrites, SuperblockWrites, Moved, ListDir, Zeroed, Folded, Foldable,
         OthersClear, Walk, RecordOffset, GrowBlock, RecLenAt, NameFits, ParsePrimarySb, BlockAt;
    GrowParts(p);
    PrimaryParses(p, GEOMETRY);
    InodeReads(p, 2, DIR_MODE, 512, 200);
    dir := ReadInode(p, GEOMETRY, 2).value;
    GrowSlot(p, dir);
    GrowWalk();
    ListingsAgreeIff(p, GEOMETRY, 2, 0, 1, DATA + 8);
  }

  lemma GrowImageExists()
    ensures exists p: Buffer :: HoldsAll(p, GrowScene())
  {
    hide InOrder, InodeWrites, SuperblockWrites, GroupWrites, Moved, GrowBlock, HoldsAll;
    var head := Moved(SuperblockWrites(GEOMETRY), SBLOCK_UFS2) + GroupWrites(0x44);
    var root := InodeWrites(GEOMETRY, 2, OneBlockInode(DIR_MODE, 512, 200));
    HeadersInOrder(0x44);
    InodeInOrder(2, OneBlockInode(DIR_MODE, 512, 200));
    InOrderWiden(root, INODE_TABLE + 512, INODE_TABLE + 768, INODE_TABLE, DATA);
    InOrderAppend(head, root, 0, INODE_TABLE, DATA);
    OneInOrder(Write(DATA, GrowBlock()), DATA, DATA + 512);
    InOrderAppend(head + root, [Write(DATA, GrowBlock())], 0, DATA, DATA + 512);
    SomeImageHolds(GrowScene(), DATA + 512);
  }

  // ── a file longer than its block map ───────────────────────────────────────

  /** One pointer per indirect block: the map reaches 12 + 1 + 1 + 1 blocks of 512 bytes. */
  const NARROW: Superblock := Superblock(Ufs2, Little, 24, 32, 40, 4, 512, 512, 1, 128, 256, 120)

  /** A file of sixteen blocks with no zero pointer. */
  const LONG: Inode := Inode(Ufs2, FILE_MODE, Regular, 1, 8192, [1, 1, 1, 1, 1, 1, 1, 1, 1, 1, 1, 1], [1, 1, 1], None)

  ghost function NarrowScene(): seq<Write> {
    InodeWrites(NARROW, 3, LONG) + Moved(SuperblockWrites(NARROW), SBLOCK_UFS2)
  }

  /** The loop asks for block 15, past the triple reach, though the file passes the size check. */
  lemma PastReachOccurs(p: Buffer) returns (inode: Inode)
    requires HoldsAll(p, NarrowScene())
    ensures ParsePrimarySb(p) == Success(NARROW) && ReadInode(p, NARROW, 3) == Success(inode)
    ensures inode.size == 8192 <= |p| && inode.direct == LONG.direct && inode.indirect == LONG.indirect
    ensures Base(Nindir(NARROW), 4) == 15 < DivCeil(inode.size, NARROW.bsize)
    ensures ResolveBlock(p, NARROW, inode, 15, Nindir(NARROW)) == 0
  {
    hide HoldsAll, InodeWrites, SuperblockWrites, Moved, ParsePrimarySb, ReadInode, ResolveBlock;
    HoldsBoth(p, InodeWrites(NARROW, 3, LONG), Moved(SuperblockWrites(NARROW), SBLOCK_UFS2));
    PrimaryParses(p, NARROW);
    MovedEnds(p, NARROW, SBLOCK_UFS2);
    Pow256Values();
    assert InodeOffset(NARROW, 3) == 21248;
    WrittenInode(p, NARROW, 3, LONG);
    inode := ReadInode(p, NARROW, 3).value;
    PowValues(1);
    PastReachIsHole(p, NARROW, inode, 15);
  }

  /** That block of the file reads as zeros. */
  lemma PastReachReadsZeros(p: Buffer) returns (content: seq<Byte>)
    requires HoldsAll(p, NarrowScene())
    ensures FileAt(p, NARROW, 3) == Success(content) && |content| == 8192 && content[7680..] == Zeros(512)
  {
    hide HoldsAll, NarrowScene, ParsePrimarySb, ReadInode, ResolveBlock, FileBytes, LeafAt, BlockBytes, DivCeil, Base;
    var inode := PastReachOccurs(p);
    content := FileBytes(p, NARROW, inode);
    FileBlock(p, NARROW, inode, 15, 7680, 512);
    HolePastReach(p, NARROW, inode, 15);
    assert content[7680..8192] == content[7680..];
  }

  lemma NarrowImageExists()
    ensures exists p: Buffer :: HoldsAll(p, NarrowScene())
  {
    hide InOrder, HoldsAll, SuperblockWrites, InodeWrites;
    var primary := Moved(SuperblockWrites(NARROW), SBLOCK_UFS2);
    LongInOrder();
    SuperblockInOrder(NARROW);
    InOrderMoved(SuperblockWrites(NARROW), 0, SB_MIN_LEN, SBLOCK_UFS2);
    InOrderAppend(InodeWrites(NARROW, 3, LONG), primary, 0, SBLOCK_UFS2, 70000);
    SomeImageHolds(NarrowScene(), 70000);
  }

  lemma LongInOrder()
    ensures InOrder(InodeWrites(NARROW, 3, LONG), 0, SBLOCK_UFS2)
  {
    hide Encode, Serialise;
    assert InodeOffset(NARROW, 3) == 21248;
  }

  // ── the auditor against the mounter ────────────────────────────────────────

  /** A sane superblock at the UFS1 offset, under a full-sized region at the UFS2 offset without a magic. */
  ghost function ForeignScene(sb: Superblock): seq<Write> {
    Moved(SuperblockWrites(sb), SBLOCK_UFS1) + [Write(SBLOCK_UFS2 + FS_MAGIC_OFF, Zeros(4))]
  }

  /** Such a partition opens, and its audit is the one finding that it has no valid magic. */
  lemma AuditorRejectsWhatOpens(p: Buffer, sb: Superblock)
    requires Sane(sb) && HoldsAll(p, ForeignScene(sb))
    ensures ForeignAtUfs2(p) && Open(p) == Some(sb)
    ensures AuditOf(p) == [SuperblockMagicInvalid(SBLOCK_UFS2 + FS_MAGIC_OFF, Zeros(4))]
  {
    hide HoldsAll, Holds, SuperblockWrites, Moved, Parse, AllGroupFindings, Orphans;
    var blank := Write(SBLOCK_UFS2 + FS_MAGIC_OFF, Zeros(4));
    assert blank in ForeignScene(sb);
    HoldsBoth(p, Moved(SuperblockWrites(sb), SBLOCK_UFS1), [blank]);
    HeldAt(p, [blank], 0);
    ParsesAt(p, sb, SBLOCK_UFS1);
    BlankIsForeign(p);
    FirstUnfold(p, [SBLOCK_UFS2, SBLOCK_UFS1]);
    assert p[SBLOCK_UFS2..] == p[SBLOCK_UFS2..|p|];
  }

  lemma BlankIsForeign(p: Buffer)
    requires Holds(p, Write(SBLOCK_UFS2 + FS_MAGIC_OFF, Zeros(4)))
    ensures SBLOCK_UFS2 + SB_MIN_LEN <= |p|
    ensures Parse(p[SBLOCK_UFS2..]) == Failure(BadMagic(FS_MAGIC_OFF, Zeros(4), 0, 0))
  {
    hide Decode;
    var data := p[SBLOCK_UFS2..];
    assert data[FS_MAGIC_OFF..FS_MAGIC_OFF + 4] == Zeros(4);
    DecodeZeros(Little, 4);
    DecodeZeros(Big, 4);
  }

  lemma ForeignImageExists(sb: Superblock)
    ensures exists p: Buffer :: HoldsAll(p, ForeignScene(sb))
  {
    hide InOrder, HoldsAll, SuperblockWrites;
    var blank := [Write(SBLOCK_UFS2 + FS_MAGIC_OFF, Zeros(4))];
    SuperblockInOrder(sb);
    InOrderMoved(SuperblockWrites(sb), 0, SB_MIN_LEN, SBLOCK_UFS1);
    InOrderWiden(Moved(SuperblockWrites(sb), SBLOCK_UFS1), SBLOCK_UFS1, SBLOCK_UFS1 + SB_MIN_LEN, 0, SBLOCK_UFS2);
    OneInOrder(blank[0], SBLOCK_UFS2, 70000);
    InOrderAppend(Moved(SuperblockWrites(sb), SBLOCK_UFS1), blank, 0, SBLOCK_UFS2, 70000);
    SomeImageHolds(ForeignScene(sb), 70000);
  }

  lemma OneInOrder(w: Write, lo: nat, hi: nat)
    requires lo <= w.off && w.End() <= hi
    ensures InOrder([w], lo, hi)
  {
  }
}
