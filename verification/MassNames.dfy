/** Deleting any number of entries and recovering every name (forensic/src/lib.rs). */
module MassNames {
  import opened Bytes
  import opened Gathering
  import opened Superblocks
  import opened Images
  import opened Inodes
  import opened BlockMap
  import opened Directory
  import opened DirectoryEdits
  import opened Listing
  import opened Traversal
  import opened Groups
  import opened Audit
  import opened Carve
  import opened Frames
  import opened Deletion
  import opened MassDeletion

  /** Where a removed entry is: directory, direct block, slot. */
  datatype Slot = Slot(dir: U64, block: nat, index: nat)

  // ── what the removals leave at the entries ─────────────────────────────────

  /** No used bit lies in the inode number of a removed entry. */
  ghost predicate BitsApart(p: Buffer, sb: Superblock, rms: seq<Removal>)
    requires HasGroups(sb)
  {
    forall r, s | r in rms && s in rms ::
      BitByte(p, sb, r.ino) < s.dirent || s.dirent + 4 <= BitByte(p, sb, r.ino)
  }

  /** A removal zeroes its entry's inode number and leaves any zero elsewhere zero. */
  lemma UnlinkZeros(m: Buffer, sb: Superblock, r: Removal, at: nat)
    requires HasGroups(sb) && HasBitmap(m, sb, Div(r.ino, sb.ipg)) && r.dirent + 4 <= |m| && at < |m|
    requires at != BitByte(m, sb, r.ino)
    requires r.dirent <= at < r.dirent + 4 || m[at] == 0
    ensures Unlink(m, sb, r.ino, r.dirent)[at] == 0
  {
    hide BitByte, HasBitmap, Rem, Div, ClearBit;
    BitByteInside(m, sb, r.ino);
  }

  lemma {:induction false} AllZeroed(p: Buffer, sb: Superblock, rms: seq<Removal>, r: Removal, at: nat)
    requires HasGroups(sb) && Removable(p, sb, rms, AllEdits(p, sb, rms)) && BitsApart(p, sb, rms)
    requires r in rms && r.dirent <= at < r.dirent + 4
    ensures at < |p| && UnlinkAll(p, sb, rms)[at] == 0
    decreases |rms|
  {
    hide HasBitmap, HeaderClear, Unlink, UnlinkEdits, Div, SameExcept, BitByte;
    var front, last := rms[..|rms| - 1], rms[|rms| - 1];
    RemovableFront(p, sb, rms);
    var m := UnlinkAll(p, sb, front);
    NextUnlink(p, m, sb, last, AllEdits(p, sb, front));
    assert rms == front + [last] && last in rms && forall x | x in front :: x in rms;
    if r in front {
      AllZeroed(p, sb, front, r, at);
    }
    UnlinkZeros(m, sb, last, at);
  }

  ghost predicate EntryZero(q: Buffer, r: Removal) {
    r.dirent + 4 <= |q| && forall x | r.dirent <= x < r.dirent + 4 :: q[x] == 0
  }

  ghost predicate EntriesZero(q: Buffer, rms: seq<Removal>) {
    forall r | r in rms :: EntryZero(q, r)
  }

  // ── one block ──────────────────────────────────────────────────────────────

  /** The slots of one block that the removals delete. */
  ghost function Hit(slots: seq<Slot>, d: U64, b: nat): set<nat> {
    set i | 0 <= i < |slots| && slots[i].dir == d && slots[i].block == b :: slots[i].index
  }

  /** Each removal is of a live entry, not naming a directory, in a directory that the walk expands. */
  ghost predicate NamedSlots(p: Buffer, sb: Superblock, rms: seq<Removal>, slots: seq<Slot>) {
    && |slots| == |rms|
    && forall i | 0 <= i < |rms| ::
         NamedEntry(p, sb, slots[i].dir, slots[i].block, slots[i].index, rms[i].dirent)
  }

  /** In block `b` of `dir`, the edits fall on the inode numbers of entries removed from it. */
  ghost predicate BlockHit(sb: Superblock, d: U64, dir: Inode, b: nat, edits: set<nat>, rms: seq<Removal>,
                           slots: seq<Slot>)
    requires sb.fsize > 0 && b < UFS_NDADDR && |slots| == |rms|
  {
    var at := FragByte(sb, dir.direct[b]);
    dir.direct[b] != 0 ==>
      forall x | x in edits && at <= x < at + WalkLen(sb, dir, b) ::
        exists i :: 0 <= i < |rms| && slots[i].dir == d && slots[i].block == b && rms[i].dirent <= x < rms[i].dirent + 4
  }

  /** The edits stay off this directory's dinode, and in its blocks off all but the removed entries. */
  ghost predicate DirHit(p: Buffer, sb: Superblock, d: U64, edits: set<nat>, rms: seq<Removal>, slots: seq<Slot>)
    requires |slots| == |rms|
  {
    ReadInode(p, sb, d).Success? && Addressable(sb) ==>
      && InodeClear(sb, edits, d)
      && forall b: nat | b < UFS_NDADDR :: BlockHit(sb, d, ReadInode(p, sb, d).value, b, edits, rms, slots)
  }

  ghost predicate SlotsOnly(p: Buffer, sb: Superblock, rms: seq<Removal>, slots: seq<Slot>)
    requires HasGroups(sb) && |slots| == |rms|
  {
    forall c | c in Collect(ListingGraph(p, sb)).visited :: DirHit(p, sb, c, AllEdits(p, sb, rms), rms, slots)
  }

  /** All that the theorem needs of the removals. */
  ghost predicate NamesRemovable(p: Buffer, sb: Superblock, rms: seq<Removal>, slots: seq<Slot>) {
    && ParsePrimarySb(p) == Success(sb) && HasGroups(sb)
    && Removable(p, sb, rms, AllEdits(p, sb, rms)) && PrimaryClear(p, AllEdits(p, sb, rms))
    && BitsApart(p, sb, rms) && NamedSlots(p, sb, rms, slots) && SlotsOnly(p, sb, rms, slots)
  }

  /** A removed slot's record starts where the removal writes. */
  lemma SlotStart(p: Buffer, sb: Superblock, d: U64, dir: Inode, b: nat, k: nat, dirent: nat)
    requires NamedEntry(p, sb, d, b, k, dirent) && ReadInode(p, sb, d) == Success(dir)
    ensures sb.fsize > 0 && b < UFS_NDADDR && dir.direct[b] != 0 && WalkLen(sb, dir, b) > 0
    ensures var at := FragByte(sb, dir.direct[b]);
            var block := Clip(p, at, WalkLen(sb, dir, b));
            && k < |Walk(sb.endian, block)| && dirent == at + RecordOffset(sb.endian, block, k)
  {
    hide ReadInode, FragByte, Walk, RecordOffset, WalkLen, Collect, SlotOf, DirBlock;
  }

  /** The block after the removals is the block with exactly the hit slots zeroed. */
  lemma BlockZeroed(p: Buffer, q: Buffer, sb: Superblock, d: U64, dir: Inode, b: nat, edits: set<nat>,
                    rms: seq<Removal>, slots: seq<Slot>)
    requires sb.fsize > 0 && b < UFS_NDADDR && |slots| == |rms| && dir.direct[b] != 0
    requires ReadInode(p, sb, d) == Success(dir) && SameExcept(p, q, edits)
    requires NamedSlots(p, sb, rms, slots) && BlockHit(sb, d, dir, b, edits, rms, slots)
    requires EntriesZero(q, rms)
    ensures var at, len := FragByte(sb, dir.direct[b]), WalkLen(sb, dir, b);
            ZeroedAt(sb.endian, Clip(p, at, len), Clip(q, at, len), Hit(slots, d, b))
  {
    hide ReadInode, FragByte, Walk, RecordOffset, WalkLen, NamedEntry, BlockHit, EntriesZero;
    var at, len, e := FragByte(sb, dir.direct[b]), WalkLen(sb, dir, b), sb.endian;
    var s, t, ks := Clip(p, at, len), Clip(q, at, len), Hit(slots, d, b);
    forall k | k in ks
      ensures k < |Walk(e, s)|
    {
      var i :| 0 <= i < |slots| && slots[i].dir == d && slots[i].block == b && slots[i].index == k;
      SlotStart(p, sb, d, dir, b, k, rms[i].dirent);
    }
    forall k, x | k in ks && RecordOffset(e, s, k) <= x < RecordOffset(e, s, k) + 4
      ensures t[x] == 0
    {
      InsideHits(p, q, sb, d, dir, b, rms, slots, k, x);
      assert t[x] == q[at + x];
    }
    forall x | 0 <= x < |s| && (forall k | k in ks :: x < RecordOffset(e, s, k) || RecordOffset(e, s, k) + 4 <= x)
      ensures t[x] == s[x]
    {
      OutsideHits(p, sb, d, dir, b, edits, rms, slots, x);
      assert q[at + x] == p[at + x];
    }
  }

  /** A byte of a hit record's inode number is zero. */
  lemma InsideHits(p: Buffer, q: Buffer, sb: Superblock, d: U64, dir: Inode, b: nat, rms: seq<Removal>,
                   slots: seq<Slot>, k: nat, x: nat)
    requires sb.fsize > 0 && b < UFS_NDADDR && |slots| == |rms| && ReadInode(p, sb, d) == Success(dir)
    requires NamedSlots(p, sb, rms, slots) && EntriesZero(q, rms) && k in Hit(slots, d, b)
    requires var block := Clip(p, FragByte(sb, dir.direct[b]), WalkLen(sb, dir, b));
             && k < |Walk(sb.endian, block)|
             && RecordOffset(sb.endian, block, k) <= x < RecordOffset(sb.endian, block, k) + 4
    ensures var y := FragByte(sb, dir.direct[b]) + x; y < |q| && q[y] == 0
  {
    hide ReadInode, FragByte, Walk, RecordOffset, WalkLen, NamedEntry;
    var i :| 0 <= i < |slots| && slots[i].dir == d && slots[i].block == b && slots[i].index == k;
    SlotStart(p, sb, d, dir, b, k, rms[i].dirent);
    assert rms[i] in rms && EntryZero(q, rms[i]);
  }

  /** A byte of the block outside the hit records' inode numbers is not edited. */
  lemma OutsideHits(p: Buffer, sb: Superblock, d: U64, dir: Inode, b: nat, edits: set<nat>, rms: seq<Removal>,
                    slots: seq<Slot>, x: nat)
    requires sb.fsize > 0 && b < UFS_NDADDR && |slots| == |rms| && dir.direct[b] != 0
    requires ReadInode(p, sb, d) == Success(dir)
    requires NamedSlots(p, sb, rms, slots) && BlockHit(sb, d, dir, b, edits, rms, slots)
    requires var block := Clip(p, FragByte(sb, dir.direct[b]), WalkLen(sb, dir, b));
             && x < |block|
             && forall k | k in Hit(slots, d, b) ::
                  && k < |Walk(sb.endian, block)|
                  && (x < RecordOffset(sb.endian, block, k) || RecordOffset(sb.endian, block, k) + 4 <= x)
    ensures FragByte(sb, dir.direct[b]) + x !in edits
  {
    hide ReadInode, FragByte, Walk, RecordOffset, WalkLen, NamedEntry;
    var at := FragByte(sb, dir.direct[b]);
    if at + x in edits {
      var i :| 0 <= i < |rms| && slots[i].dir == d && slots[i].block == b
               && rms[i].dirent <= at + x < rms[i].dirent + 4;
      SlotStart(p, sb, d, dir, b, slots[i].index, rms[i].dirent);
      assert false;
    }
  }

  /** Deleting slots that name no directory leaves the directories queued. */
  lemma {:induction false} GoneDirs(w: seq<DirEntry>, v: seq<DirEntry>, ks: set<nat>)
    requires GoneAt(w, v, ks) && forall k | k in ks && k < |w| :: !IsDirEntry(w[k])
    ensures DirsOf(v) == DirsOf(w)
    decreases |w|
  {
    if w != [] {
      GoneDirs(w[..|w| - 1], v[..|v| - 1], ks);
    }
  }

  /** Each block queues the directories it did, and shows its removed slots as deleted. */
  lemma BlockNames(p: Buffer, q: Buffer, sb: Superblock, d: U64, dir: Inode, b: nat, edits: set<nat>,
                   rms: seq<Removal>, slots: seq<Slot>)
    requires sb.fsize > 0 && b < UFS_NDADDR && |slots| == |rms|
    requires ReadInode(p, sb, d) == Success(dir) && SameExcept(p, q, edits)
    requires NamedSlots(p, sb, rms, slots) && BlockHit(sb, d, dir, b, edits, rms, slots)
    requires EntriesZero(q, rms)
    ensures var f, h := DirBlock(p, sb, dir)(b), DirBlock(q, sb, dir)(b);
            && GoneAt(f, h, Hit(slots, d, b)) && DirsOf(h) == DirsOf(f)
  {
    hide ReadInode, FragByte, Walk, WalkLen, NamedEntry, ZeroedAt, Left, DirsOf, BlockHit, SameExcept;
    var f, h, ks := DirBlock(p, sb, dir)(b), DirBlock(q, sb, dir)(b), Hit(slots, d, b);
    if dir.direct[b] != 0 && Left(dir.size, WalkBsize(sb), b) > 0 {
      var at, len := FragByte(sb, dir.direct[b]), WalkLen(sb, dir, b);
      BlockZeroed(p, q, sb, d, dir, b, edits, rms, slots);
      DirBlockIs(p, sb, dir, b);
      DirBlockIs(q, sb, dir, b);
      ZeroManyWalk(sb.endian, Clip(p, at, len), Clip(q, at, len), ks);
    }
    forall k | k in ks && k < |f|
      ensures !IsDirEntry(f[k])
    {
      var i :| 0 <= i < |slots| && slots[i].dir == d && slots[i].block == b && slots[i].index == k;
      SlotIsFile(p, sb, d, dir, b, k, rms[i].dirent);
    }
    GoneDirs(f, h, ks);
  }

  lemma DirBlockIs(p: Buffer, sb: Superblock, dir: Inode, b: nat)
    requires sb.fsize > 0 && b < UFS_NDADDR && dir.direct[b] != 0 && Left(dir.size, WalkBsize(sb), b) > 0
    ensures DirBlock(p, sb, dir)(b) == Walk(sb.endian, Clip(p, FragByte(sb, dir.direct[b]), WalkLen(sb, dir, b)))
  {
    hide FragByte, Walk, Left;
  }

  lemma SlotIsFile(p: Buffer, sb: Superblock, d: U64, dir: Inode, b: nat, k: nat, dirent: nat)
    requires NamedEntry(p, sb, d, b, k, dirent) && ReadInode(p, sb, d) == Success(dir)
    ensures k < |DirBlock(p, sb, dir)(b)|
    ensures var x := DirBlock(p, sb, dir)(b)[k]; x.name != [] && !IsDot(x) && !IsDirEntry(x)
  {
    hide ReadInode, SlotLies, DirBlock, Collect, IsDot, IsDirEntry;
  }

  // ── every directory, and the whole walk ────────────────────────────────────

  lemma DirNames(p: Buffer, q: Buffer, sb: Superblock, d: U64, edits: set<nat>, rms: seq<Removal>, slots: seq<Slot>)
    requires |slots| == |rms| && SameExcept(p, q, edits) && DirHit(p, sb, d, edits, rms, slots)
    requires NamedSlots(p, sb, rms, slots)
    requires EntriesZero(q, rms)
    ensures DirsOf(ListingGraph(q, sb)(d)) == DirsOf(ListingGraph(p, sb)(d))
    ensures ReadInode(p, sb, d).Success? ==>
              && ReadInode(q, sb, d) == ReadInode(p, sb, d) && sb.fsize > 0
              && forall b: nat | b < UFS_NDADDR ::
                   GoneAt(DirBlock(p, sb, ReadInode(p, sb, d).value)(b), DirBlock(q, sb, ReadInode(p, sb, d).value)(b),
                          Hit(slots, d, b))
  {
    hide ReadInode, SameExcept, BlockHit, NamedSlots, DirBlock, GoneAt, Hit, DirsOf, Gather, InodeClear;
    SameLength(p, q, edits);
    var read := ReadInode(p, sb, d);
    if read.Failure? {
      InodeStaysUnreadable(p, q, sb, d);
    } else {
      ReadableIsAddressable(p, sb, d);
      InodeSame(p, q, sb, edits, d);
      var f, h := DirBlock(p, sb, read.value), DirBlock(q, sb, read.value);
      forall b: nat | b < UFS_NDADDR
        ensures GoneAt(f(b), h(b), Hit(slots, d, b)) && DirsOf(h(b)) == DirsOf(f(b))
      {
        BlockNames(p, q, sb, d, read.value, b, edits, rms, slots);
      }
      DirsOfGather(f, h, UFS_NDADDR);
    }
  }

  /** A hit slot is listed as deleted under its old name. */
  lemma HitListed(p: Buffer, q: Buffer, sb: Superblock, slots: seq<Slot>, i: nat, dir: Inode)
    requires i < |slots| && slots[i].block < UFS_NDADDR && sb.fsize > 0
    requires var b, k := slots[i].block, slots[i].index;
             && GoneAt(DirBlock(p, sb, dir)(b), DirBlock(q, sb, dir)(b), Hit(slots, slots[i].dir, b))
             && k < |DirBlock(p, sb, dir)(b)|
             && var x := DirBlock(p, sb, dir)(b)[k]; x.name != [] && !IsDot(x)
    ensures DeletedName(DirBlock(p, sb, dir)(slots[i].block)[slots[i].index].name, 0) in DeletedOf(DirSlots(q, sb, dir))
  {
    hide DirBlock, DeletedOf, Gather;
    var b, k := slots[i].block, slots[i].index;
    var h := DirBlock(q, sb, dir);
    var gone := Gone(DirBlock(p, sb, dir)(b)[k]);
    assert k in Hit(slots, slots[i].dir, b) && h(b)[k] == gone;
    GatherMember(h, UFS_NDADDR, gone);
    ResidualListed(DirSlots(q, sb, dir), gone);
  }

  lemma ZeroedEverywhere(p: Buffer, sb: Superblock, rms: seq<Removal>)
    requires HasGroups(sb) && Removable(p, sb, rms, AllEdits(p, sb, rms)) && BitsApart(p, sb, rms)
    ensures EntriesZero(UnlinkAll(p, sb, rms), rms)
  {
    hide UnlinkAll, AllEdits, Removable, BitsApart;
    var q := UnlinkAll(p, sb, rms);
    forall r | r in rms
      ensures EntryZero(q, r)
    {
      AllZeroed(p, sb, rms, r, r.dirent + 3);
      forall x | r.dirent <= x < r.dirent + 4
        ensures q[x] == 0
      {
        AllZeroed(p, sb, rms, r, x);
      }
    }
  }

  /**
   * Delete any number of entries, then recover: the deleted-slot walk expands the directories it did, and recovery
   * reports every removed name, with inode number 0.
   */
  lemma DeletedNamesAreRecovered(p: Buffer, sb: Superblock, rms: seq<Removal>, slots: seq<Slot>, i: nat)
    requires NamesRemovable(p, sb, rms, slots) && i < |rms|
    ensures ReadInode(p, sb, slots[i].dir).Success? && sb.fsize > 0 && slots[i].block < UFS_NDADDR
    ensures slots[i].index < |DirBlock(p, sb, ReadInode(p, sb, slots[i].dir).value)(slots[i].block)|
    ensures var q, dir := UnlinkAll(p, sb, rms), ReadInode(p, sb, slots[i].dir).value;
            && Collect(ListingGraph(q, sb)).visited == Collect(ListingGraph(p, sb)).visited
            && DeletedDirent(DeletedName(DirBlock(p, sb, dir)(slots[i].block)[slots[i].index].name, 0))
                 in RecoveredFrom(q)
  {
    hide ParsePrimarySb, ReadInode, UnlinkAll, AllEdits, Removable, SameExcept, DirHit, BitsApart, PrimaryClear, DirBlock,
         SlotLies, Collect, DirsOf, DeletedOf, GoneAt, DirSlots, IsDot, IsDirEntry, Carved;
    var q, edits := UnlinkAll(p, sb, rms), AllEdits(p, sb, rms);
    var g, h := ListingGraph(p, sb), ListingGraph(q, sb);
    var d := slots[i].dir;
    PrimarySame(p, q, edits);
    ZeroedEverywhere(p, sb, rms);
    forall c | c in Collect(g).visited
      ensures DirsOf(h(c)) == DirsOf(g(c))
    {
      DirNames(p, q, sb, c, edits, rms, slots);
    }
    CollectSame(g, h);
    DirNames(p, q, sb, d, edits, rms, slots);
    var dir := ReadInode(p, sb, d).value;
    SlotIsFile(p, sb, d, dir, slots[i].block, slots[i].index, rms[i].dirent);
    HitListed(p, q, sb, slots, i, dir);
    CollectOnAnyGraph(h);
    var n := DeletedName(DirBlock(p, sb, dir)(slots[i].block)[slots[i].index].name, 0);
    DeletedInMember(h, Collect(h).visited, d, n);
    DirentListed(Collect(h).deleted, n);
  }
}
