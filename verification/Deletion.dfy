/**
 * Deleting a file and recovering it (forensic/src/lib.rs, forensic/tests/carve.rs): `rm` zeroes a directory
 * entry's inode number and clears the inode's used bit; recovery finds the old content and the old name.
 */
module Deletion {
  import opened Bytes
  import opened Gathering
  import opened Superblocks
  import opened Images
  import opened Inodes
  import opened BlockMap
  import opened Directory
  import opened DirectoryEdits
  import opened Listing
  import opened Traversal
  import opened Groups
  import opened Audit
  import opened Carve
  import opened Frames

  // ── one bit ────────────────────────────────────────────────────────────────

  function ClearBit(b: Byte, k: nat): (r: Byte)
    ensures r <= b
  {
    if k == 0 then b / 2 * 2 else ClearBit(b / 2, k - 1) * 2 + b % 2
  }

  /** Clearing bit `k` clears it and leaves every other bit. */
  lemma {:induction false} ClearBitExact(b: Byte, k: nat, j: nat)
    ensures Shr(ClearBit(b, k), j) % 2 == if j == k then 0 else Shr(b, j) % 2
    decreases k
  {
    if k > 0 {
      var r := ClearBit(b, k);
      assert r / 2 == ClearBit(b / 2, k - 1) && r % 2 == b % 2;
      if j > 0 {
        ClearBitExact(b / 2, k - 1, j - 1);
      }
    } else if j > 0 {
      assert ClearBit(b, 0) / 2 == b / 2;
    }
  }

  // ── the edit ───────────────────────────────────────────────────────────────

  /** The byte of a bitmap that holds an inode's used bit. */
  ghost function BitByte(p: Buffer, sb: Superblock, ino: U64): nat
    requires HasGroups(sb)
  {
    BitmapAt(p, sb, Div(ino, sb.ipg)) + Rem(ino, sb.ipg) / 8
  }

  lemma BitByteInside(p: Buffer, sb: Superblock, ino: U64)
    requires sb.ipg > 0 && HasBitmap(p, sb, Div(ino, sb.ipg))
    ensures BitmapAt(p, sb, Div(ino, sb.ipg)) <= BitByte(p, sb, ino)
    ensures BitByte(p, sb, ino) < BitmapAt(p, sb, Div(ino, sb.ipg)) + BitmapLen(sb) <= |p|
  {
    hide BitmapAt, ReadUint, HeaderAt;
  }

  /** Zero the four bytes at `dirent` and clear the used bit of `ino`. */
  ghost function Unlink(p: Buffer, sb: Superblock, ino: U64, dirent: nat): (q: Buffer)
    requires sb.ipg > 0 && HasBitmap(p, sb, Div(ino, sb.ipg)) && dirent + 4 <= |p|
    ensures |q| == |p|
  {
    BitByteInside(p, sb, ino);
    var at := BitByte(p, sb, ino);
    Splice(Splice(p, Write(dirent, Zeros(4))), Write(at, [ClearBit(p[at], Rem(ino, sb.ipg) % 8)]))
  }

  ghost function UnlinkEdits(p: Buffer, sb: Superblock, ino: U64, dirent: nat): set<nat>
    requires HasGroups(sb)
  {
    {dirent, dirent + 1, dirent + 2, dirent + 3, BitByte(p, sb, ino)}
  }

  lemma UnlinkChangesOnly(p: Buffer, sb: Superblock, ino: U64, dirent: nat)
    requires sb.ipg > 0 && HasBitmap(p, sb, Div(ino, sb.ipg)) && dirent + 4 <= |p|
    ensures SameExcept(p, Unlink(p, sb, ino, dirent), UnlinkEdits(p, sb, ino, dirent))
    ensures BitByte(p, sb, ino) < |p|
    ensures Unlink(p, sb, ino, dirent)[BitByte(p, sb, ino)]
              == ClearBit(p[BitByte(p, sb, ino)], Rem(ino, sb.ipg) % 8)
  {
    hide BitByte, BitmapAt, HeaderAt, ReadUint, ClearBit, Rem, Splice;
    BitByteInside(p, sb, ino);
    var at := BitByte(p, sb, ino);
    SplicedTwice(p, dirent, at, ClearBit(p[at], Rem(ino, sb.ipg) % 8));
  }

  lemma SplicedTwice(p: Buffer, dirent: nat, at: nat, b: Byte)
    requires dirent + 4 <= |p| && at < |p|
    ensures var q := Splice(Splice(p, Write(dirent, Zeros(4))), Write(at, [b]));
            q[at] == b && SameExcept(p, q, {dirent, dirent + 1, dirent + 2, dirent + 3, at})
  {
    hide Splice;
    var once := Splice(p, Write(dirent, Zeros(4)));
    forall i | 0 <= i < |p|
      ensures Splice(once, Write(at, [b]))[i]
              == if i == at then b else if dirent <= i < dirent + 4 then 0 else p[i]
    {
      SplicedAt(p, Write(dirent, Zeros(4)), i);
      SplicedAt(once, Write(at, [b]), i);
    }
  }

  /** No edit inside the two header fields that locate the bitmap. */
  ghost predicate HeaderClear(sb: Superblock, edits: set<nat>, cg: nat)
    requires HasGroups(sb)
  {
    var at := HeaderAt(sb, cg);
    Clear(edits, at + CG_MAGIC_OFF, at + CG_MAGIC_OFF + 4) && Clear(edits, at + CG_IUSEDOFF, at + CG_IUSEDOFF + 4)
  }

  lemma BitmapSame(p: Buffer, q: Buffer, sb: Superblock, edits: set<nat>, cg: nat)
    requires SameExcept(p, q, edits) && HasBitmap(p, sb, cg) && HeaderClear(sb, edits, cg)
    ensures HasBitmap(q, sb, cg) && BitmapAt(q, sb, cg) == BitmapAt(p, sb, cg)
  {
    hide SameExcept, Clear, HeaderAt, Decode;
    SameLength(p, q, edits);
    var at := HeaderAt(sb, cg);
    SameSlice(p, q, edits, at + CG_MAGIC_OFF, at + CG_MAGIC_OFF + 4);
    SameSlice(p, q, edits, at + CG_IUSEDOFF, at + CG_IUSEDOFF + 4);
  }

  /** Any edit that clears the inode's bit and spares the header's fields frees the inode. */
  lemma BitFreesInode(p: Buffer, q: Buffer, sb: Superblock, ino: U64, edits: set<nat>)
    requires HasGroups(sb) && HasBitmap(p, sb, Div(ino, sb.ipg)) && SameExcept(p, q, edits)
    requires HeaderClear(sb, edits, Div(ino, sb.ipg)) && BitByte(p, sb, ino) < |q|
    requires q[BitByte(p, sb, ino)] == ClearBit(p[BitByte(p, sb, ino)], Rem(ino, sb.ipg) % 8)
    ensures InodeUsed(q, sb, ino) == Some(false)
  {
    hide BitmapAt, HeaderAt, HeaderClear, ReadUint, Div, Rem, Shr, ClearBit, CgInodeBitmap, HasBitmap;
    var cg, within := Div(ino, sb.ipg), Rem(ino, sb.ipg);
    BitmapSame(p, q, sb, edits, cg);
    CgInodeBitmapExact(q, sb, cg);
    BitmapCoversGroup(q, sb, cg);
    BitByteInside(p, sb, ino);
    var at := BitmapAt(q, sb, cg);
    assert q[at..at + BitmapLen(sb)][within / 8] == q[BitByte(p, sb, ino)];
    ClearBitExact(p[BitByte(p, sb, ino)], within % 8, within % 8);
  }

  lemma UnlinkFreesInode(p: Buffer, sb: Superblock, ino: U64, dirent: nat)
    requires sb.ipg > 0 && HasBitmap(p, sb, Div(ino, sb.ipg)) && dirent + 4 <= |p|
    requires HeaderClear(sb, UnlinkEdits(p, sb, ino, dirent), Div(ino, sb.ipg))
    ensures InodeUsed(Unlink(p, sb, ino, dirent), sb, ino) == Some(false)
  {
    hide BitByte, HeaderClear, Unlink, UnlinkEdits, Div, Rem, ClearBit, InodeUsed;
    UnlinkChangesOnly(p, sb, ino, dirent);
    BitFreesInode(p, Unlink(p, sb, ino, dirent), sb, ino, UnlinkEdits(p, sb, ino, dirent));
  }

  // ── recovering the content ─────────────────────────────────────────────────

  /** A live file as `rm` meets it: parsed geometry, a readable bitmap, and a regular file with content. */
  ghost predicate LiveFile(p: Buffer, sb: Superblock, ino: U64) {
    && ParsePrimarySb(p) == Success(sb)
    && UFS_ROOTINO < ino < InodeCount(sb)
    && sb.ipg > 0 && HasBitmap(p, sb, Div(ino, sb.ipg))
    && ReadInode(p, sb, ino).Success?
    && (var inode := ReadInode(p, sb, ino).value;
        inode.IsRegular() && inode.size > 0 && inode.direct[0] != 0)
    && FileAt(p, sb, ino).Success?
  }

  /** The edit stays off the superblock, the group header's fields, the dinode, and the file's own blocks. */
  ghost predicate ResidueIntact(p: Buffer, sb: Superblock, ino: U64, edits: set<nat>)
    requires LiveFile(p, sb, ino)
  {
    && PrimaryClear(p, edits)
    && HeaderClear(sb, edits, Div(ino, sb.ipg))
    && (Addressable(sb) ==> InodeClear(sb, edits, ino))
    && (HasBlocks(sb) ==> FileClear(p, sb, ReadInode(p, sb, ino).value, edits))
  }

  lemma LiveFileGeometry(p: Buffer, sb: Superblock, ino: U64)
    requires LiveFile(p, sb, ino)
    ensures Addressable(sb) && HasBlocks(sb) && HasGroups(sb)
  {
    hide ParsePrimarySb, ParseDinode, InodeOffset, HeaderAt, BitmapAt, ReadUint, InodeCount, Div, FileBytes;
    ReadInodeExact(p, sb, ino);
  }

  lemma ContentSurvives(p: Buffer, q: Buffer, sb: Superblock, ino: U64, edits: set<nat>)
    requires LiveFile(p, sb, ino) && SameExcept(p, q, edits) && ResidueIntact(p, sb, ino, edits)
    ensures ReadInode(q, sb, ino) == ReadInode(p, sb, ino)
    ensures FileAt(q, sb, ino) == FileAt(p, sb, ino)
  {
    hide ParsePrimarySb, SameExcept, ReadInode, HasBitmap, InodeCount, Div, FileBytes, FileClear, PrimaryClear,
         HeaderClear, InodeClear;
    LiveFileGeometry(p, sb, ino);
    SameLength(p, q, edits);
    InodeSame(p, q, sb, edits, ino);
    FileSame(p, q, sb, ReadInode(p, sb, ino).value, edits);
  }

  /** A live file whose residue an edit spares and whose bit it clears is recovered with its old content. */
  lemma FreedIsCarved(p: Buffer, q: Buffer, sb: Superblock, ino: U64, edits: set<nat>)
    requires LiveFile(p, sb, ino) && HasGroups(sb) && SameExcept(p, q, edits) && ResidueIntact(p, sb, ino, edits)
    requires InodeUsed(q, sb, ino) == Some(false)
    ensures var inode := ReadInode(p, sb, ino).value;
            DeletedFile(None, ino, inode.size, FileAt(p, sb, ino).value) in RecoveredFrom(q)
  {
    hide ParsePrimarySb, ReadInode, HasBitmap, FileAt, FileClear, PrimaryClear, HeaderClear, InodeClear, SameExcept,
         InodeUsed, InodeCount, Collect, Carved;
    PrimarySame(p, q, edits);
    ContentSurvives(p, q, sb, ino, edits);
    var names := Collect(ListingGraph(q, sb)).deleted;
    CarvedExact(q, sb, names);
    CarvedAreNameless(q, sb, ino);
    var item := DeletedFile(None, ino, ReadInode(p, sb, ino).value.size, FileAt(p, sb, ino).value);
    assert item in Carved(q, sb, names);
  }

  /**
   * Delete, then carve: after any such `rm` of a regular non-empty file, recovery returns that inode, nameless,
   * with exactly the content it had before.
   */
  lemma DeleteThenCarve(p: Buffer, sb: Superblock, ino: U64, dirent: nat)
    requires LiveFile(p, sb, ino) && dirent + 4 <= |p|
    requires HasGroups(sb) && ResidueIntact(p, sb, ino, UnlinkEdits(p, sb, ino, dirent))
    ensures var inode := ReadInode(p, sb, ino).value;
            DeletedFile(None, ino, inode.size, FileAt(p, sb, ino).value) in RecoveredFrom(Unlink(p, sb, ino, dirent))
  {
    hide ParsePrimarySb, ReadInode, HasBitmap, FileAt, FileClear, PrimaryClear, HeaderClear, InodeClear, Unlink,
         UnlinkEdits, InodeUsed, InodeCount, RecoveredFrom;
    UnlinkChangesOnly(p, sb, ino, dirent);
    UnlinkFreesInode(p, sb, ino, dirent);
    FreedIsCarved(p, Unlink(p, sb, ino, dirent), sb, ino, UnlinkEdits(p, sb, ino, dirent));
  }

  // ── recovering the name ────────────────────────────────────────────────────

  /** The bytes of the direct block `b` that a directory walk reads. */
  ghost function WalkLen(sb: Superblock, dir: Inode, b: nat): nat
    requires b < UFS_NDADDR
  {
    Min(Left(dir.size, WalkBsize(sb), b), WalkBsize(sb))
  }

  ghost predicate DirBlockClear(sb: Superblock, dir: Inode, b: nat, edits: set<nat>)
    requires sb.fsize > 0 && b < UFS_NDADDR
  {
    dir.direct[b] != 0 ==>
      Clear(edits, FragByte(sb, dir.direct[b]), FragByte(sb, dir.direct[b]) + WalkLen(sb, dir, b))
  }

  lemma DirBlockSame(p: Buffer, q: Buffer, sb: Superblock, dir: Inode, b: nat, edits: set<nat>)
    requires SameExcept(p, q, edits) && sb.fsize > 0 && b < UFS_NDADDR && DirBlockClear(sb, dir, b, edits)
    ensures DirBlock(q, sb, dir)(b) == DirBlock(p, sb, dir)(b)
  {
    hide SameExcept, FragByte, Left, Walk, Clip;
    if dir.direct[b] != 0 {
      ClipSame(p, q, edits, FragByte(sb, dir.direct[b]), WalkLen(sb, dir, b));
    }
  }

  /** Slot `k` of direct block `b` of directory `dir`, and where its record starts. */
  ghost predicate SlotLies(p: Buffer, sb: Superblock, dir: Inode, b: nat, k: nat, dirent: nat)
    requires sb.fsize > 0 && b < UFS_NDADDR
  {
    var at := FragByte(sb, dir.direct[b]);
    var block := Clip(p, at, WalkLen(sb, dir, b));
    && dir.direct[b] != 0 && WalkLen(sb, dir, b) > 0
    && k < |Walk(sb.endian, block)|
    && dirent == at + RecordOffset(sb.endian, block, k)
  }

  ghost function SlotOf(p: Buffer, sb: Superblock, dir: Inode, b: nat, k: nat): DirEntry
    requires sb.fsize > 0 && b < UFS_NDADDR && k < |DirBlock(p, sb, dir)(b)|
  {
    DirBlock(p, sb, dir)(b)[k]
  }

  lemma SlotInBlock(p: Buffer, sb: Superblock, dir: Inode, b: nat, k: nat, dirent: nat)
    requires sb.fsize > 0 && b < UFS_NDADDR && SlotLies(p, sb, dir, b, k, dirent)
    ensures DirBlock(p, sb, dir)(b) == Walk(sb.endian, Clip(p, FragByte(sb, dir.direct[b]), WalkLen(sb, dir, b)))
    ensures k < |DirBlock(p, sb, dir)(b)|
    ensures dirent + DIRECT_HEAD <= |p|
  {
    hide FragByte, Walk, RecordOffset, Left;
  }

  /** In the edited block, the slot at the zeroed record is gone and every other slot stands. */
  lemma UnlinkedBlock(p: Buffer, q: Buffer, sb: Superblock, dir: Inode, b: nat, k: nat, dirent: nat, other: nat)
    requires sb.fsize > 0 && b < UFS_NDADDR && SlotLies(p, sb, dir, b, k, dirent)
    requires SameExcept(p, q, {dirent, dirent + 1, dirent + 2, dirent + 3, other})
    requires dirent + 4 <= |q| && q[dirent..dirent + 4] == Zeros(4)
    requires DirBlockClear(sb, dir, b, {other})
    ensures SlotLies(p, sb, dir, b, k, dirent) && k < |DirBlock(p, sb, dir)(b)|
    ensures DirBlock(q, sb, dir)(b) == DirBlock(p, sb, dir)(b)[k := Gone(SlotOf(p, sb, dir, b, k))]
  {
    hide FragByte, Walk, RecordOffset, Left;
    SlotInBlock(p, sb, dir, b, k, dirent);
    var at, len := FragByte(sb, dir.direct[b]), WalkLen(sb, dir, b);
    var block := Clip(p, at, len);
    var off := RecordOffset(sb.endian, block, k);
    ClipZeroed(p, q, at, len, off, other);
    ZeroInoWalk(sb.endian, block, k);
  }

  lemma ClipZeroed(p: Buffer, q: Buffer, at: nat, len: nat, off: nat, other: nat)
    requires off + DIRECT_HEAD <= |Clip(p, at, len)|
    requires SameExcept(p, q, {at + off, at + off + 1, at + off + 2, at + off + 3, other})
    requires q[at + off..at + off + 4] == Zeros(4)
    requires Clear({other}, at, at + len)
    ensures Clip(q, at, len) == ZeroIno(Clip(p, at, len), off)
  {
    hide Clip, Splice;
    var a, b := Clip(q, at, len), ZeroIno(Clip(p, at, len), off);
    ClipLen(p, at, len);
    ClipLen(q, at, len);
    forall i | 0 <= i < |a|
      ensures a[i] == b[i]
    {
      ClipAt(q, at, len, i);
      ClipAt(p, at, len, i);
      SplicedAt(Clip(p, at, len), Write(off, Zeros(4)), i);
      if off <= i < off + 4 {
        assert q[at + off..at + off + 4][i - off] == 0;
      }
      assert other in {other};
    }
  }

  lemma {:induction false} DirsOfGather(f: nat -> seq<DirEntry>, h: nat -> seq<DirEntry>, n: nat)
    requires forall j: nat | j < n :: DirsOf(h(j)) == DirsOf(f(j))
    ensures DirsOf(Gather(h, n)) == DirsOf(Gather(f, n))
  {
    hide DirsOf;
    if n > 0 {
      DirsOfGather(f, h, n - 1);
      DirsOfAppend(Gather(f, n - 1), f(n - 1));
      DirsOfAppend(Gather(h, n - 1), h(n - 1));
    }
  }

  /** Readability of an inode depends on the image's length alone. */
  lemma InodeStaysUnreadable(p: Buffer, q: Buffer, sb: Superblock, ino: U64)
    requires |p| == |q| && ReadInode(p, sb, ino).Failure?
    ensures ReadInode(q, sb, ino).Failure?
  {
    hide ReadInode, InodeOffset, ParseDinode;
    ReadInodeExact(p, sb, ino);
    ReadInodeExact(q, sb, ino);
  }

  /** The edit stays off this directory's dinode and direct blocks, save for block `b`. */
  ghost predicate DirClear(p: Buffer, sb: Superblock, d: U64, edits: set<nat>, b: int) {
    Addressable(sb) && ReadInode(p, sb, d).Success? ==>
      && InodeClear(sb, edits, d)
      && forall j: nat | j < UFS_NDADDR && j != b :: DirBlockClear(sb, ReadInode(p, sb, d).value, j, edits)
  }

  lemma OtherDirSame(p: Buffer, q: Buffer, sb: Superblock, d: U64, edits: set<nat>)
    requires SameExcept(p, q, edits) && DirClear(p, sb, d, edits, -1)
    ensures ListingGraph(q, sb)(d) == ListingGraph(p, sb)(d)
  {
    hide SameExcept, Gather, DirBlock, DirBlockClear, ReadInode, InodeClear;
    SameLength(p, q, edits);
    var read := ReadInode(p, sb, d);
    if read.Failure? {
      InodeStaysUnreadable(p, q, sb, d);
    } else {
      ReadableIsAddressable(p, sb, d);
      InodeSame(p, q, sb, edits, d);
      var f, h := DirBlock(p, sb, read.value), DirBlock(q, sb, read.value);
      forall j: nat | j < UFS_NDADDR
        ensures h(j) == f(j)
      {
        DirBlockSame(p, q, sb, read.value, j, edits);
      }
      GatherSame(h, f, UFS_NDADDR);
    }
  }

  lemma ReadableIsAddressable(p: Buffer, sb: Superblock, ino: U64)
    requires ReadInode(p, sb, ino).Success?
    ensures Addressable(sb)
  {
    hide ParseDinode, InodeStart;
  }

  /** The edited directory queues what it did, and lists the edited slot as deleted under its old name. */
  lemma EditedDir(p: Buffer, q: Buffer, sb: Superblock, d: U64, b: nat, k: nat, dirent: nat, other: nat)
    requires ReadInode(p, sb, d).Success? && sb.fsize > 0 && b < UFS_NDADDR
    requires var edits := {dirent, dirent + 1, dirent + 2, dirent + 3, other};
             SameExcept(p, q, edits) && DirClear(p, sb, d, edits, b)
    requires var dir := ReadInode(p, sb, d).value;
             && SlotLies(p, sb, dir, b, k, dirent) && DirBlockClear(sb, dir, b, {other})
             && k < |DirBlock(p, sb, dir)(b)| && !IsDirEntry(SlotOf(p, sb, dir, b, k))
    requires dirent + 4 <= |q| && q[dirent..dirent + 4] == Zeros(4)
    ensures var dir := ReadInode(p, sb, d).value;
            && DirsOf(ListingGraph(q, sb)(d)) == DirsOf(ListingGraph(p, sb)(d))
            && Gone(SlotOf(p, sb, dir, b, k)) in ListingGraph(q, sb)(d)
  {
    hide SameExcept, Gather, DirBlock, DirBlockClear, ReadInode, InodeClear, SlotLies, DirsOf;
    var edits := {dirent, dirent + 1, dirent + 2, dirent + 3, other};
    var dir := ReadInode(p, sb, d).value;
    ReadableIsAddressable(p, sb, d);
    InodeSame(p, q, sb, edits, d);
    var f, h := DirBlock(p, sb, dir), DirBlock(q, sb, dir);
    UnlinkedBlock(p, q, sb, dir, b, k, dirent, other);
    var gone := Gone(SlotOf(p, sb, dir, b, k));
    forall j: nat | j < UFS_NDADDR
      ensures DirsOf(h(j)) == DirsOf(f(j))
    {
      if j == b {
        DirsOfReplace(f(b), k, gone);
      } else {
        DirBlockSame(p, q, sb, dir, j, edits);
      }
    }
    DirsOfGather(f, h, UFS_NDADDR);
    assert h(b)[k] == gone;
    GatherMember(h, UFS_NDADDR, gone);
  }

  /** Everything recovery needs to see the deleted name: the entry `rm` zeroes, in a directory it still reaches. */
  ghost predicate NamedEntry(p: Buffer, sb: Superblock, d: U64, b: nat, k: nat, dirent: nat) {
    && d in Collect(ListingGraph(p, sb)).visited
    && ReadInode(p, sb, d).Success? && sb.fsize > 0 && b < UFS_NDADDR
    && (var dir := ReadInode(p, sb, d).value;
        && SlotLies(p, sb, dir, b, k, dirent)
        && k < |DirBlock(p, sb, dir)(b)|
        && var x := SlotOf(p, sb, dir, b, k);
           x.name != [] && !IsDot(x) && !IsDirEntry(x))
  }

  /** The edit stays off every other directory block the walk reads, and its bit off the entry's own block. */
  ghost predicate DirectoriesClear(p: Buffer, sb: Superblock, ino: U64, d: U64, b: nat, k: nat, dirent: nat)
    requires HasGroups(sb) && NamedEntry(p, sb, d, b, k, dirent)
  {
    var edits := UnlinkEdits(p, sb, ino, dirent);
    && (forall c | c in Collect(ListingGraph(p, sb)).visited :: DirClear(p, sb, c, edits, if c == d then b else -1))
    && DirBlockClear(sb, ReadInode(p, sb, d).value, b, {BitByte(p, sb, ino)})
  }

  /**
   * Delete, then recover the name: the same `rm` leaves the deleted walk expanding the same directories, and
   * recovery reports the removed name, with inode number 0.
   */
  lemma DeletedNameIsRecovered(p: Buffer, sb: Superblock, ino: U64, d: U64, b: nat, k: nat, dirent: nat)
    requires LiveFile(p, sb, ino) && HasGroups(sb) && NamedEntry(p, sb, d, b, k, dirent)
    requires dirent + 4 <= |p| && PrimaryClear(p, UnlinkEdits(p, sb, ino, dirent))
    requires DirectoriesClear(p, sb, ino, d, b, k, dirent)
    ensures var q := Unlink(p, sb, ino, dirent);
            var name := SlotOf(p, sb, ReadInode(p, sb, d).value, b, k).name;
            && Collect(ListingGraph(q, sb)).visited == Collect(ListingGraph(p, sb)).visited
            && DeletedDirent(DeletedName(name, 0)) in RecoveredFrom(q)
  {
    hide ParsePrimarySb, ReadInode, HasBitmap, SlotLies, PrimaryClear, DirBlock, DirBlockClear, BitByte, Unlink,
         SameExcept, DirsOf, DeletedOf, DirSlots, Collect, Carved, DirClear, InodeCount, FileAt, SlotOf;
    var q, edits := Unlink(p, sb, ino, dirent), UnlinkEdits(p, sb, ino, dirent);
    var g, h := ListingGraph(p, sb), ListingGraph(q, sb);
    var x := SlotOf(p, sb, ReadInode(p, sb, d).value, b, k);
    UnlinkChangesOnly(p, sb, ino, dirent);
    PrimarySame(p, q, edits);
    UnlinkZeroes(p, sb, ino, d, b, k, dirent);
    EditedDir(p, q, sb, d, b, k, dirent, BitByte(p, sb, ino));
    forall c | c in Collect(g).visited
      ensures DirsOf(h(c)) == DirsOf(g(c))
    {
      if c != d {
        OtherDirSame(p, q, sb, c, edits);
      }
    }
    CollectSame(g, h);
    CollectOnAnyGraph(h);
    ResidualListed(h(d), Gone(x));
    DeletedInMember(h, Collect(h).visited, d, DeletedName(x.name, 0));
    DirentListed(Collect(h).deleted, DeletedName(x.name, 0));
  }

  lemma ResidualListed(es: seq<DirEntry>, x: DirEntry)
    requires x in es && Residual(x)
    ensures DeletedName(x.name, x.ino) in DeletedOf(es)
  {
    hide DeletedOf;
    DeletedOfExact(es, DeletedName(x.name, x.ino));
  }

  lemma DirentListed(names: seq<DeletedName>, n: DeletedName)
    requires n in names
    ensures DeletedDirent(n) in Dirents(names)
  {
    var i :| 0 <= i < |names| && names[i] == n;
    assert Dirents(names)[i] == DeletedDirent(n);
  }

  lemma UnlinkZeroes(p: Buffer, sb: Superblock, ino: U64, d: U64, b: nat, k: nat, dirent: nat)
    requires HasGroups(sb) && HasBitmap(p, sb, Div(ino, sb.ipg)) && dirent + 4 <= |p|
    requires ReadInode(p, sb, d).Success? && sb.fsize > 0 && b < UFS_NDADDR
    requires SlotLies(p, sb, ReadInode(p, sb, d).value, b, k, dirent)
    requires DirBlockClear(sb, ReadInode(p, sb, d).value, b, {BitByte(p, sb, ino)})
    ensures Unlink(p, sb, ino, dirent)[dirent..dirent + 4] == Zeros(4)
  {
    hide ReadInode, FragByte, Walk, RecordOffset, Left, BitByte, HasBitmap, ClearBit, Rem;
    var dir := ReadInode(p, sb, d).value;
    SlotInsideBlock(p, sb, dir, b, k, dirent);
    var bit := BitByte(p, sb, ino);
    assert bit in {bit};
    BitByteInside(p, sb, ino);
    var middle := Splice(p, Write(dirent, Zeros(4)));
    SpliceElsewhere(middle, Write(bit, [ClearBit(p[bit], Rem(ino, sb.ipg) % 8)]), dirent, dirent + 4);
  }

  lemma SlotInsideBlock(p: Buffer, sb: Superblock, dir: Inode, b: nat, k: nat, dirent: nat)
    requires sb.fsize > 0 && b < UFS_NDADDR && SlotLies(p, sb, dir, b, k, dirent)
    ensures var at := FragByte(sb, dir.direct[b]); at <= dirent && dirent + DIRECT_HEAD <= at + WalkLen(sb, dir, b)
  {
    hide FragByte, Walk, RecordOffset, Left;
  }
}
