/** Two files of one directory deleted one after the other: an instance of the theorems about many deletions. */
module TwoRemovals {
  import opened Bytes
  import opened Superblocks
  import opened Images
  import opened Inodes
  import opened BlockMap
  import opened Directory
  import opened DirectoryEdits
  import opened Listing
  import opened Traversal
  import opened Groups
  import opened Audit
  import opened Carve
  import opened Frames
  import opened Layout
  import opened Deletion
  import opened MassDeletion
  import opened MassNames
  import opened Fixtures

  const FIRST: Record := Record(6, 8, [97], Zeros(3))
  const SECOND: Record := Record(7, 8, [98], Zeros(467))
  const FIRST_BLOCK: nat := 860160
  const SECOND_BLOCK: nat := 901120

  /** `.`, `..`, `a` and `b`. */
  ghost function RootRecords(): (rs: seq<Record>)
    ensures FillsBlock(rs) && |rs| == 4
    ensures rs[0] == Here(2) && rs[1] == Parent(2) && rs[2] == FIRST && rs[3] == SECOND
  {
    PrintTwo(Little, Here(2), Parent(2));
    PrintLast(Little, [Here(2), Parent(2)], FIRST);
    PrintLast(Little, [Here(2), Parent(2)] + [FIRST], SECOND);
    [Here(2), Parent(2)] + [FIRST] + [SECOND]
  }

  ghost predicate ContentOk(c: seq<Byte>) {
    0 < |c| <= 32768
  }

  ghost function Blocks(a: seq<Byte>, b: seq<Byte>): seq<Write> {
    [Write(DATA, Print(Little, RootRecords())), Write(FIRST_BLOCK, a), Write(SECOND_BLOCK, b)]
  }

  /** Inodes 2, 6 and 7 are in use; the two files hold `a` and `b`. */
  ghost function Scene(a: seq<Byte>, b: seq<Byte>): seq<Write>
    requires ContentOk(a) && ContentOk(b)
  {
    Moved(SuperblockWrites(GEOMETRY), SBLOCK_UFS2) + GroupWrites(0xC4)
    + InodeWrites(GEOMETRY, 2, OneBlockInode(DIR_MODE, 512, 200))
    + InodeWrites(GEOMETRY, 6, OneBlockInode(FILE_MODE, |a|, 210))
    + InodeWrites(GEOMETRY, 7, OneBlockInode(FILE_MODE, |b|, 220))
    + Blocks(a, b)
  }

  lemma Parts(p: Buffer, a: seq<Byte>, b: seq<Byte>)
    requires ContentOk(a) && ContentOk(b) && HoldsAll(p, Scene(a, b))
    ensures HoldsAll(p, Moved(SuperblockWrites(GEOMETRY), SBLOCK_UFS2)) && HoldsAll(p, GroupWrites(0xC4))
    ensures HoldsAll(p, InodeWrites(GEOMETRY, 2, OneBlockInode(DIR_MODE, 512, 200)))
    ensures HoldsAll(p, InodeWrites(GEOMETRY, 6, OneBlockInode(FILE_MODE, |a|, 210)))
    ensures HoldsAll(p, InodeWrites(GEOMETRY, 7, OneBlockInode(FILE_MODE, |b|, 220)))
    ensures HoldsAll(p, Blocks(a, b))
  {
    hide Holds, SuperblockWrites, GroupWrites, InodeWrites, Moved, Blocks;
  }

  lemma BlocksHeld(p: Buffer, a: seq<Byte>, b: seq<Byte>)
    requires HoldsAll(p, Blocks(a, b))
    ensures Holds(p, Write(DATA, Print(Little, RootRecords()))) && |p| >= SECOND_BLOCK
    ensures Holds(p, Write(FIRST_BLOCK, a)) && Holds(p, Write(SECOND_BLOCK, b))
  {
    hide Print;
    var ws := Blocks(a, b);
    assert ws[0] in ws && ws[1] in ws && ws[2] in ws;
  }

  // ── two live files ─────────────────────────────────────────────────────────

  const REMOVALS: seq<Removal> := [Removal(6, 819224), Removal(7, 819236)]
  const SLOTS: seq<Slot> := [Slot(2, 0, 2), Slot(2, 0, 3)]

  lemma OneIsLive(p: Buffer, ino: U64, frag: U64, content: Buffer)
    requires 6 <= ino <= 7 && 210 <= frag <= 220 && ContentOk(content)
    requires ParsePrimarySb(p) == Success(GEOMETRY) && HasBitmap(p, GEOMETRY, 0) && |p| >= SECOND_BLOCK
    requires HoldsAll(p, InodeWrites(GEOMETRY, ino, OneBlockInode(FILE_MODE, |content|, frag)))
    requires Holds(p, Write(frag * 4096, content))
    ensures LiveFile(p, GEOMETRY, ino) && FileAt(p, GEOMETRY, ino) == Success(content)
    ensures var inode := ReadInode(p, GEOMETRY, ino).value;
            && inode.size == |content| && LeafAt(p, GEOMETRY, inode, Nindir(GEOMETRY), 0) == frag
  {
    hide ReadInode, HoldsAll, Holds, InodeWrites, ParsePrimarySb, FileContent, HasBitmap, LeafAt;
    InodeReads(p, ino, FILE_MODE, |content|, frag);
    ContentReads(p, frag, content, ReadInode(p, GEOMETRY, ino).value);
  }

  /** The two removals write the bitmap's first byte and the two inode numbers, nothing else. */
  lemma TwoEdits(p: Buffer)
    requires HasBitmap(p, GEOMETRY, 0) && BitmapAt(p, GEOMETRY, 0) == BITMAP
    ensures forall x :: x in AllEdits(p, GEOMETRY, REMOVALS) <==>
              x == BITMAP || 819224 <= x < 819228 || 819236 <= x < 819240
    ensures BitByte(p, GEOMETRY, 6) == BITMAP && BitByte(p, GEOMETRY, 7) == BITMAP
  {
    hide HasBitmap, BitmapAt;
    var one := [Removal(6, 819224)];
    assert REMOVALS[..1] == one && one[..0] == [];
    assert AllEdits(p, GEOMETRY, one) == UnlinkEdits(p, GEOMETRY, 6, 819224);
    assert AllEdits(p, GEOMETRY, REMOVALS) == AllEdits(p, GEOMETRY, one) + UnlinkEdits(p, GEOMETRY, 7, 819236);
  }

  lemma OneIsClear(p: Buffer, ino: U64, frag: U64, edits: set<nat>)
    requires 6 <= ino <= 7 && 210 <= frag <= 220 && LiveFile(p, GEOMETRY, ino)
    requires forall x | x in edits :: x == BITMAP || DATA <= x < FIRST_BLOCK
    requires ParseAt(p, SBLOCK_UFS2) == Some(GEOMETRY) && HeaderAt(GEOMETRY, 0) == GROUP_HEADER
    requires InodeOffset(GEOMETRY, ino) == INODE_TABLE + ino * 256
    requires var inode := ReadInode(p, GEOMETRY, ino).value;
             0 < inode.size <= 32768 && LeafAt(p, GEOMETRY, inode, Nindir(GEOMETRY), 0) == frag
    ensures ResidueIntact(p, GEOMETRY, ino, edits)
  {
    hide ReadInode, LeafAt, ParseAt, FileAt, ParsePrimarySb, HasBitmap, InodeCount, HeaderAt;
    OneBlockClear(p, frag, ReadInode(p, GEOMETRY, ino).value, edits);
  }

  lemma BothRecoverable(p: Buffer, a: Buffer, b: Buffer)
    requires ContentOk(a) && ContentOk(b) && HoldsAll(p, Scene(a, b))
    ensures AllRecoverable(p, GEOMETRY, REMOVALS)
    ensures FileAt(p, GEOMETRY, 6) == Success(a) && ReadInode(p, GEOMETRY, 6).Success?
    ensures FileAt(p, GEOMETRY, 7) == Success(b) && ReadInode(p, GEOMETRY, 7).Success?
    ensures ReadInode(p, GEOMETRY, 6).value.size == |a| && ReadInode(p, GEOMETRY, 7).value.size == |b|
  {
    hide ReadInode, HoldsAll, Holds, Scene, InodeWrites, SuperblockWrites, GroupWrites, Moved, Blocks, ParsePrimarySb,
         HasBitmap, LiveFile, FileAt, LeafAt, AllEdits, ResidueIntact, BitmapAt, ParseAt, HeaderAt, InodeOffset;
    Parts(p, a, b);
    BlocksHeld(p, a, b);
    PrimaryParses(p, GEOMETRY);
    GroupReads(p, 0xC4);
    OneIsLive(p, 6, 210, a);
    OneIsLive(p, 7, 220, b);
    TwoEdits(p);
    InodeReads(p, 6, FILE_MODE, |a|, 210);
    InodeReads(p, 7, FILE_MODE, |b|, 220);
    OneIsClear(p, 6, 210, AllEdits(p, GEOMETRY, REMOVALS));
    OneIsClear(p, 7, 220, AllEdits(p, GEOMETRY, REMOVALS));
  }

  // ── two names ──────────────────────────────────────────────────────────────

  lemma RootWalk()
    ensures var block := Print(Little, RootRecords());
            && Walk(Little, block) == [Here(2).Entry(), Parent(2).Entry()] + [FIRST.Entry(), SECOND.Entry()]
            && Entries(RootRecords()) == Walk(Little, block)
            && RecordOffset(Little, block, 2) == 24 && RecordOffset(Little, block, 3) == 36
  {
    hide Walk, Print, AllValid, EntryAt, RecordOffset;
    var rs := RootRecords();
    var dots := [Here(2), Parent(2)];
    WalkPrint(Little, rs);
    EntriesAt(rs, 0);
    EntriesAt(rs, 1);
    EntriesAt(rs, 2);
    EntriesAt(rs, 3);
    PrintTwo(Little, Here(2), Parent(2));
    PrintLast(Little, dots, FIRST);
    assert rs == dots + [FIRST, SECOND] == dots + [FIRST] + [SECOND];
    ValidParts(dots, [FIRST, SECOND]);
    ValidParts(dots + [FIRST], [SECOND]);
    PrintOffset(Little, dots, [FIRST, SECOND]);
    PrintOffset(Little, dots + [FIRST], [SECOND]);
  }

  lemma BothNamed(p: Buffer, dir: Inode)
    requires Holds(p, Write(DATA, Print(Little, RootRecords()))) && ReadInode(p, GEOMETRY, 2) == Success(dir)
    requires dir.size == 512 && dir.direct == [200] + Zeros(11)
    ensures NamedSlots(p, GEOMETRY, REMOVALS, SLOTS) && Collect(ListingGraph(p, GEOMETRY)).visited == [2]
    ensures var es := DirBlock(p, GEOMETRY, dir)(0); |es| == 4 && es[2].name == [97] && es[3].name == [98]
  {
    hide ReadInode, Walk, RecordOffset, Print, RootRecords, Entries, Collect, DirsOf, DirSlots;
    RootWalk();
    DirectoryReads(p, RootRecords(), 200, dir);
    LeftFirst(512, 32768);
    assert dir.direct[0] == 200;
    var g := ListingGraph(p, GEOMETRY);
    DirsOfNone(g(2));
    CollectLeaf(g);
    assert [97][0] != DOT[0] && [97][0] != DOTDOT[0] && [98][0] != DOT[0] && [98][0] != DOTDOT[0];
  }

  lemma RootHit(p: Buffer, dir: Inode, edits: set<nat>)
    requires ReadInode(p, GEOMETRY, 2) == Success(dir)
    requires dir.size == 512 && dir.direct == [200] + Zeros(11) && InodeOffset(GEOMETRY, 2) == INODE_TABLE + 512
    requires forall x | x in edits :: x == BITMAP || 819224 <= x < 819228 || 819236 <= x < 819240
    ensures DirHit(p, GEOMETRY, 2, edits, REMOVALS, SLOTS)
  {
    hide ReadInode;
    LeftFirst(512, 32768);
    assert dir.direct[0] == 200;
    forall b: nat | b < UFS_NDADDR
      ensures BlockHit(GEOMETRY, 2, dir, b, edits, REMOVALS, SLOTS)
    {
      if b > 0 {
        assert dir.direct[b] == 0;
      } else {
        forall x | x in edits && DATA <= x
          ensures exists i ::
                    && 0 <= i < 2 && SLOTS[i].dir == 2 && SLOTS[i].block == 0
                    && REMOVALS[i].dirent <= x < REMOVALS[i].dirent + 4
        {
          var i := if x < 819228 then 0 else 1;
          assert SLOTS[i].dir == 2 && REMOVALS[i].dirent <= x < REMOVALS[i].dirent + 4;
        }
      }
    }
  }

  /** After both removals, recovery returns both files and both names. */
  lemma BothRecovered(p: Buffer, a: Buffer, b: Buffer)
    requires ContentOk(a) && ContentOk(b) && HoldsAll(p, Scene(a, b))
    ensures HasGroups(GEOMETRY) && Removable(p, GEOMETRY, REMOVALS, AllEdits(p, GEOMETRY, REMOVALS))
    ensures var found := RecoveredFrom(UnlinkAll(p, GEOMETRY, REMOVALS));
            && DeletedFile(None, 6, |a|, a) in found && DeletedFile(None, 7, |b|, b) in found
            && DeletedDirent(DeletedName([97], 0)) in found && DeletedDirent(DeletedName([98], 0)) in found
  {
    hide ReadInode, HoldsAll, Holds, Scene, InodeWrites, SuperblockWrites, GroupWrites, Moved, Blocks, ParsePrimarySb,
         HasBitmap, AllRecoverable, AllEdits, Removable, RecoveredFrom, UnlinkAll, BitmapAt, ParseAt, NamedSlots,
         DirBlock, Collect, DirHit, LiveFile, FileAt, PrimaryClear, BitByte;
    BothRecoverable(p, a, b);
    assert REMOVALS[0] in REMOVALS && REMOVALS[1] in REMOVALS;
    DeleteAllThenCarve(p, GEOMETRY, REMOVALS, REMOVALS[0]);
    DeleteAllThenCarve(p, GEOMETRY, REMOVALS, REMOVALS[1]);
    Parts(p, a, b);
    BlocksHeld(p, a, b);
    PrimaryParses(p, GEOMETRY);
    GroupReads(p, 0xC4);
    TwoEdits(p);
    InodeReads(p, 2, DIR_MODE, 512, 200);
    var dir := ReadInode(p, GEOMETRY, 2).value;
    BothNamed(p, dir);
    RootHit(p, dir, AllEdits(p, GEOMETRY, REMOVALS));
    BothClear(p, AllEdits(p, GEOMETRY, REMOVALS));
    DeletedNamesAreRecovered(p, GEOMETRY, REMOVALS, SLOTS, 0);
    DeletedNamesAreRecovered(p, GEOMETRY, REMOVALS, SLOTS, 1);
  }

  lemma BothClear(p: Buffer, edits: set<nat>)
    requires forall x | x in edits :: x == BITMAP || DATA <= x < FIRST_BLOCK
    requires ParseAt(p, SBLOCK_UFS2) == Some(GEOMETRY)
    ensures PrimaryClear(p, edits)
  {
    hide ParseAt;
  }

  // ── there is such an image ─────────────────────────────────────────────────

  lemma BlocksInOrder(a: seq<Byte>, b: seq<Byte>)
    requires ContentOk(a) && ContentOk(b)
    ensures InOrder(Blocks(a, b), DATA, SECOND_BLOCK + 32768)
  {
    hide Print;
    var rs := RootRecords();
  }

  lemma SceneExists(a: seq<Byte>, b: seq<Byte>)
    requires ContentOk(a) && ContentOk(b)
    ensures exists p: Buffer :: HoldsAll(p, Scene(a, b))
  {
    hide InOrder, InodeWrites, SuperblockWrites, GroupWrites, Moved, Blocks, HoldsAll;
    var head := Moved(SuperblockWrites(GEOMETRY), SBLOCK_UFS2) + GroupWrites(0xC4);
    var i2 := InodeWrites(GEOMETRY, 2, OneBlockInode(DIR_MODE, 512, 200));
    var i6 := InodeWrites(GEOMETRY, 6, OneBlockInode(FILE_MODE, |a|, 210));
    var i7 := InodeWrites(GEOMETRY, 7, OneBlockInode(FILE_MODE, |b|, 220));
    HeadersInOrder(0xC4);
    InodeInOrder(2, OneBlockInode(DIR_MODE, 512, 200));
    InodeInOrder(6, OneBlockInode(FILE_MODE, |a|, 210));
    InodeInOrder(7, OneBlockInode(FILE_MODE, |b|, 220));
    BlocksInOrder(a, b);
    InOrderWiden(i2, INODE_TABLE + 512, INODE_TABLE + 768, INODE_TABLE, INODE_TABLE + 1536);
    InOrderAppend(head, i2, 0, INODE_TABLE, INODE_TABLE + 1536);
    InOrderAppend(head + i2, i6, 0, INODE_TABLE + 1536, INODE_TABLE + 1792);
    InOrderWiden(i7, INODE_TABLE + 1792, INODE_TABLE + 2048, INODE_TABLE + 1792, DATA);
    InOrderAppend(head + i2 + i6, i7, 0, INODE_TABLE + 1792, DATA);
    InOrderAppend(head + i2 + i6 + i7, Blocks(a, b), 0, DATA, SECOND_BLOCK + 32768);
    SomeImageHolds(Scene(a, b), SECOND_BLOCK + 32768);
  }
}
