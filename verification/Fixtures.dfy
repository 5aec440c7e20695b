/** The crafted partitions of forensic/tests/common/mod.rs: one geometry, and what a reader finds of each piece. */
module Fixtures {
  import opened Bytes
  import opened Gathering
  import opened Superblocks
  import opened Images
  import opened Inodes
  import opened BlockMap
  import opened Directory
  import opened DirectoryEdits
  import opened Listing
  import opened Traversal
  import opened Groups
  import opened Audit
  import opened Frames
  import opened Layout

  const GEOMETRY: Superblock := Superblock(Ufs2, Little, 24, 32, 40, 4, 32768, 4096, 4096, 128, 256, 120)

  const GROUP_HEADER: nat := 131072
  const BITMAP: nat := 131240
  const INODE_TABLE: nat := 163840
  const DATA: nat := 819200
  const DIR_MODE: U16 := 0x41ED
  const FILE_MODE: U16 := 0x81A4

  // ── superblock ─────────────────────────────────────────────────────────────

  /** A superblock written at `at` is parsed there. */
  lemma ParsesAt(p: Buffer, sb: Superblock, at: U64)
    requires Sane(sb) && HoldsAll(p, Moved(SuperblockWrites(sb), at))
    ensures at + SB_MIN_LEN <= |p| && ParseAt(p, at) == Some(sb)
  {
    hide HoldsAll, SuperblockWrites, InOrder, Parse;
    MovedEnds(p, sb, at);
    SuperblockEnds(sb);
    HeldInside(p, SuperblockWrites(sb), at, |p|);
    assert p[at..] == p[at..|p|];
    SuperblockRoundTrip(p[at..], sb);
  }

  lemma MovedEnds(p: Buffer, sb: Superblock, at: nat)
    requires HoldsAll(p, Moved(SuperblockWrites(sb), at))
    ensures at + SB_MIN_LEN <= |p|
  {
    hide HoldsAll, Encode;
    HeldAt(p, Moved(SuperblockWrites(sb), at), 10);
  }

  lemma SuperblockEnds(sb: Superblock)
    ensures forall w | w in SuperblockWrites(sb) :: w.End() <= SB_MIN_LEN
  {
    hide SuperblockWrites;
    SuperblockInOrder(sb);
  }

  /** Written at the UFS2 offset, it is the primary. */
  lemma PrimaryParses(p: Buffer, sb: Superblock)
    requires Sane(sb) && HoldsAll(p, Moved(SuperblockWrites(sb), SBLOCK_UFS2))
    ensures ParsePrimarySb(p) == Success(sb) && ParseAt(p, SBLOCK_UFS2) == Some(sb)
  {
    hide HoldsAll, SuperblockWrites, Parse;
    ParsesAt(p, sb, SBLOCK_UFS2);
    FirstUnfold(p, [SBLOCK_UFS2, SBLOCK_UFS1]);
    assert p[SBLOCK_UFS2..] == p[SBLOCK_UFS2..|p|];
  }

  // ── group 0 ────────────────────────────────────────────────────────────────

  /** Group 0's header, its free-block bitmap elsewhere, and the first byte of its inode bitmap. */
  ghost function GroupWrites(bits: Byte): seq<Write> {
    [Word(Little, GROUP_HEADER + 4, 0x0009_0255), Word(Little, GROUP_HEADER + 92, 168),
     Word(Little, GROUP_HEADER + 96, 184), Write(BITMAP, [bits])]
  }

  lemma GroupReads(p: Buffer, bits: Byte)
    requires HoldsAll(p, GroupWrites(bits)) && |p| >= INODE_TABLE
    ensures HasBitmap(p, GEOMETRY, 0) && HeaderAt(GEOMETRY, 0) == GROUP_HEADER && BitmapAt(p, GEOMETRY, 0) == BITMAP
    ensures p[BITMAP] == bits
  {
    hide Holds, HoldsAll, ReadU32, Encode, Word;
    var ws := GroupWrites(bits);
    HeldAt(p, ws, 0);
    HeldAt(p, ws, 1);
    HeldAt(p, ws, 3);
    WordReads(p, Little, GROUP_HEADER + 4, 0x0009_0255);
    WordReads(p, Little, GROUP_HEADER + 92, 168);
    HeldByte(p, BITMAP, bits);
  }

  lemma HeldByte(p: Buffer, at: nat, b: Byte)
    requires Holds(p, Write(at, [b]))
    ensures at < |p| && p[at] == b
  {
    assert p[at..at + 1][0] == b;
  }

  /** One of the first eight inodes is in use when its bit says so. */
  lemma BitReads(p: Buffer, bits: Byte, ino: U64)
    requires HoldsAll(p, GroupWrites(bits)) && |p| >= INODE_TABLE && ino < 8
    ensures InodeUsed(p, GEOMETRY, ino) == Some(Shr(bits, ino) % 2 == 1)
  {
    hide HoldsAll, GroupWrites, HasBitmap, BitmapAt, CgInodeBitmap, Shr;
    GroupReads(p, bits);
    CgInodeBitmapExact(p, GEOMETRY, 0);
    BitmapCoversGroup(p, GEOMETRY, 0);
    assert BitmapLen(GEOMETRY) == 16 && p[BITMAP..BITMAP + 16][0] == bits;
  }

  // ── inodes and one-block directories ───────────────────────────────────────

  /** A dinode with one link and one direct block. */
  function OneBlockInode(mode: U16, size: U64, frag: U64): Inode {
    Inode(Ufs2, mode, FromMode(mode), 1, size, [frag] + Zeros(11), Zeros(3), None)
  }

  lemma InodeReads(p: Buffer, ino: U64, mode: U16, size: U64, frag: U64)
    requires ino < 128 && |p| >= DATA && HoldsAll(p, InodeWrites(GEOMETRY, ino, OneBlockInode(mode, size, frag)))
    ensures InodeOffset(GEOMETRY, ino) == INODE_TABLE + ino * 256
    ensures var r := ReadInode(p, GEOMETRY, ino);
            && r.Success? && r.value.fileType == FromMode(mode) && r.value.nlink == 1 && r.value.size == size
            && r.value.direct == [frag] + Zeros(11)
  {
    hide ReadInode, HoldsAll, InodeWrites, FromMode;
    Pow256Values();
    WrittenInode(p, GEOMETRY, ino, OneBlockInode(mode, size, frag));
  }

  ghost predicate FillsBlock(rs: seq<Record>) {
    AllValid(rs) && |Print(Little, rs)| == 512
  }

  /** A directory whose one block holds these records lists exactly them. */
  lemma DirectoryReads(p: Buffer, rs: seq<Record>, frag: U64, dir: Inode)
    requires 0 < frag < 0x1_0000 && FillsBlock(rs) && Holds(p, Write(frag * 4096, Print(Little, rs)))
    requires dir.size == 512 && dir.direct == [frag] + Zeros(11)
    ensures Clip(p, FragByte(GEOMETRY, frag), 512) == Print(Little, rs)
    ensures DirBlock(p, GEOMETRY, dir)(0) == Entries(rs) && DirSlots(p, GEOMETRY, dir) == Entries(rs)
  {
    hide Gather, Walk, Print, AllValid, Entries;
    WalkPrint(Little, rs);
    LeftFirst(512, 32768);
    assert dir.direct[0] == frag;
    assert Clip(p, FragByte(GEOMETRY, frag), 512) == Print(Little, rs);
    var f := DirBlock(p, GEOMETRY, dir);
    forall j: nat | 1 <= j < UFS_NDADDR
      ensures f(j) == []
    {
      assert dir.direct[j] == 0;
    }
    GatherNoMore(f, 1, UFS_NDADDR);
    GatherNone(f);
    GatherStep(f, 0);
  }

  /** A file whose one block holds some content reads as that content. */
  lemma ContentReads(p: Buffer, frag: U64, content: Buffer, inode: Inode)
    requires 0 < frag < 0x1_0000 && 0 < |content| <= 32768 && Holds(p, Write(frag * 4096, content))
    requires inode.size == |content| && inode.direct[0] == frag
    ensures LeafAt(p, GEOMETRY, inode, Nindir(GEOMETRY), 0) == frag
    ensures FileContent(p, GEOMETRY, inode) == Success(content)
  {
    hide LeafAt, FileBytes, BlockBytes;
    LeafDirect(p, GEOMETRY, inode, Nindir(GEOMETRY), 0);
    FileBlock(p, GEOMETRY, inode, 0, 0, |content|);
    PresentBlock(p, GEOMETRY, frag, content);
    assert FileBytes(p, GEOMETRY, inode)[0..|content|] == FileBytes(p, GEOMETRY, inode);
  }

  /** Edits below its block leave such a file alone. */
  lemma OneBlockClear(p: Buffer, frag: U64, inode: Inode, edits: set<nat>)
    requires 0 < inode.size <= 32768 && LeafAt(p, GEOMETRY, inode, Nindir(GEOMETRY), 0) == frag
    requires forall x | x in edits :: x < frag * 4096
    ensures FileClear(p, GEOMETRY, inode, edits)
  {
    hide LeafAt;
    forall bi: nat | BlockLen(GEOMETRY, inode, bi) > 0
      ensures BlockClear(p, GEOMETRY, inode, edits, bi, BlockLen(GEOMETRY, inode, bi))
    {
      assert bi == 0;
    }
  }

  /** The `.` and `..` of a directory. */
  function Here(ino: U32): Record {
    Record(ino, 4, DOT, Zeros(3))
  }

  function Parent(ino: U32): Record {
    Record(ino, 4, DOTDOT, Zeros(2))
  }

  // ── laying the pieces out ──────────────────────────────────────────────────

  lemma InodeInOrder(ino: U64, inode: Inode)
    requires ino < 128
    ensures InOrder(InodeWrites(GEOMETRY, ino, inode), INODE_TABLE + ino * 256, INODE_TABLE + ino * 256 + 256)
  {
    hide Encode, Serialise;
    assert InodeOffset(GEOMETRY, ino) == INODE_TABLE + ino * 256;
  }

  lemma GroupInOrder(bits: Byte)
    ensures InOrder(GroupWrites(bits), GROUP_HEADER, INODE_TABLE)
  {
    hide Encode;
  }

  /** A superblock at the UFS2 offset, then group 0. */
  lemma HeadersInOrder(bits: Byte)
    ensures InOrder(Moved(SuperblockWrites(GEOMETRY), SBLOCK_UFS2) + GroupWrites(bits), 0, INODE_TABLE)
  {
    hide InOrder, SuperblockWrites, GroupWrites;
    SuperblockInOrder(GEOMETRY);
    InOrderMoved(SuperblockWrites(GEOMETRY), 0, SB_MIN_LEN, SBLOCK_UFS2);
    GroupInOrder(bits);
    var ws := Moved(SuperblockWrites(GEOMETRY), SBLOCK_UFS2);
    InOrderWiden(ws, SBLOCK_UFS2, SBLOCK_UFS2 + SB_MIN_LEN, 0, GROUP_HEADER);
    InOrderAppend(ws, GroupWrites(bits), 0, GROUP_HEADER, INODE_TABLE);
  }

  /** Writes in order can be laid over a blank image of any sufficient length. */
  lemma SomeImageHolds(ws: seq<Write>, len: nat)
    requires InOrder(ws, 0, len) && len < 0x8000_0000_0000_0000
    ensures exists p: Buffer :: |p| == len && HoldsAll(p, ws)
  {
    hide InOrder, Fits, Disjoint, Overlay, HoldsAll;
    InOrderDisjoint(ws, 0, len);
    var blank: Buffer := Zeros(len);
    OverlayHolds(blank, ws);
    assert |Overlay(blank, ws)| == len;
  }
}
