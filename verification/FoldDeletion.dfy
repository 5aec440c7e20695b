/**
 * Deleting by folding the entry away, as docs/RESEARCH.md describes it: the content is still recovered, and the name is
 * not, since the code reads no name out of the slack of a record (forensic/src/lib.rs).
 */
module FoldDeletion {
  import opened Bytes
  import opened Gathering
  import opened Superblocks
  import opened Images
  import opened Inodes
  import opened BlockMap
  import opened Directory
  import opened DirectoryEdits
  import opened Listing
  import opened Traversal
  import opened Groups
  import opened Audit
  import opened Carve
  import opened Frames
  import opened Deletion
  import opened LiveView

  // ── the edit ───────────────────────────────────────────────────────────────

  /** The entry that a removal folds away: a live one, not naming a directory, after a record whose name fits. */
  ghost predicate FoldedEntry(p: Buffer, sb: Superblock, dir: Inode, b: nat, k: nat, dirent: nat) {
    && sb.fsize > 0 && b < UFS_NDADDR
    && Foldable(p, sb, dir, b, k, dirent)
    && NameFits(sb.endian, BlockAt(p, sb, dir, b), k - 1)
    && k < |DirBlock(p, sb, dir)(b)|
    && var x := SlotOf(p, sb, dir, b, k);
       !x.deleted && !IsDirEntry(x)
  }

  ghost function FoldEdits(p: Buffer, sb: Superblock, ino: U64, dir: Inode, b: nat, k: nat, dirent: nat): set<nat>
    requires HasGroups(sb) && FoldedEntry(p, sb, dir, b, k, dirent)
  {
    var field := LengthField(p, sb, dir, b, k, dirent);
    {field, field + 1, BitByte(p, sb, ino)}
  }

  /** Fold the entry into its predecessor and clear the used bit of `ino`. */
  ghost function FoldAway(p: Buffer, sb: Superblock, ino: U64, dir: Inode, b: nat, k: nat, dirent: nat): (q: Buffer)
    requires HasGroups(sb) && HasBitmap(p, sb, Div(ino, sb.ipg)) && FoldedEntry(p, sb, dir, b, k, dirent)
    ensures |q| == |p|
  {
    BitByteInside(p, sb, ino);
    var at := BitByte(p, sb, ino);
    Splice(Folded(p, sb, dir, b, k, dirent), Write(at, [ClearBit(p[at], Rem(ino, sb.ipg) % 8)]))
  }

  lemma FoldAwayChanges(p: Buffer, sb: Superblock, ino: U64, dir: Inode, b: nat, k: nat, dirent: nat)
    requires HasGroups(sb) && HasBitmap(p, sb, Div(ino, sb.ipg)) && FoldedEntry(p, sb, dir, b, k, dirent)
    ensures var q, bit := FoldAway(p, sb, ino, dir, b, k, dirent), BitByte(p, sb, ino);
            && SameExcept(p, q, FoldEdits(p, sb, ino, dir, b, k, dirent))
            && SameExcept(Folded(p, sb, dir, b, k, dirent), q, {bit})
            && bit < |q| && q[bit] == ClearBit(p[bit], Rem(ino, sb.ipg) % 8)
  {
    hide BitByte, HasBitmap, ClearBit, Rem, Div, LengthField, Foldable, BlockAt, Folded, NameFits, SlotOf, DirBlock,
         SameExcept, Splice;
    BitByteInside(p, sb, ino);
    var m, at, field := Folded(p, sb, dir, b, k, dirent), BitByte(p, sb, ino), LengthField(p, sb, dir, b, k, dirent);
    FoldedLocal(p, sb, dir, b, k, dirent);
    SpliceOne(m, at, ClearBit(p[at], Rem(ino, sb.ipg) % 8));
    SameTwice(p, m, FoldAway(p, sb, ino, dir, b, k, dirent), {field, field + 1}, {at});
    assert {field, field + 1} + {at} == FoldEdits(p, sb, ino, dir, b, k, dirent);
  }

  lemma FoldedLocal(p: Buffer, sb: Superblock, dir: Inode, b: nat, k: nat, dirent: nat)
    requires sb.fsize > 0 && b < UFS_NDADDR && Foldable(p, sb, dir, b, k, dirent)
    ensures var field := LengthField(p, sb, dir, b, k, dirent);
            SameExcept(p, Folded(p, sb, dir, b, k, dirent), {field, field + 1})
  {
    hide Foldable, LengthField, RecLenAt, BlockAt, Encode;
    FieldInside(p, sb, dir, b, k, dirent);
  }

  // ── what the directory walk sees ───────────────────────────────────────────

  lemma {:induction false} WalkedGatherSame(f: nat -> seq<DirEntry>, h: nat -> seq<DirEntry>, n: nat)
    requires forall j: nat | j < n :: DirsOf(h(j)) == DirsOf(f(j)) && DeletedOf(h(j)) == DeletedOf(f(j))
    ensures DirsOf(Gather(h, n)) == DirsOf(Gather(f, n)) && DeletedOf(Gather(h, n)) == DeletedOf(Gather(f, n))
  {
    hide DirsOf, DeletedOf;
    if n > 0 {
      WalkedGatherSame(f, h, n - 1);
      DirsOfAppend(Gather(f, n - 1), f(n - 1));
      DirsOfAppend(Gather(h, n - 1), h(n - 1));
      DeletedOfAppend(Gather(f, n - 1), f(n - 1));
      DeletedOfAppend(Gather(h, n - 1), h(n - 1));
    }
  }

  /** The folded block loses just the one slot, which named no directory and no residue. */
  lemma FoldedBlockWalked(p: Buffer, q: Buffer, sb: Superblock, dir: Inode, b: nat, k: nat, dirent: nat, bit: nat)
    requires FoldedEntry(p, sb, dir, b, k, dirent)
    requires SameExcept(Folded(p, sb, dir, b, k, dirent), q, {bit}) && DirBlockClear(sb, dir, b, {bit})
    ensures var f, h := DirBlock(p, sb, dir)(b), DirBlock(q, sb, dir)(b);
            DirsOf(h) == DirsOf(f) && DeletedOf(h) == DeletedOf(f)
  {
    hide SameExcept, DirBlock, DirBlockClear, BlockAt, Walk, RecLenAt, NameFits, FoldIntoPrevious, DirsOf, DeletedOf,
         FragByte, WalkLen, Folded, RecordOffset, ZeroIno;
    SlotInBlock(p, sb, dir, b, k, dirent);
    EditedBlocks(p, sb, dir, b, k, dirent);
    DirBlockSame(Folded(p, sb, dir, b, k, dirent), q, sb, dir, b, {bit});
    var block := BlockAt(p, sb, dir, b);
    var w := Walk(sb.endian, block);
    FoldWalk(sb.endian, block, k);
    assert w == w[..k] + [w[k]] + w[k + 1..];
    SlotDropped(w[..k], w[k], w[k + 1..]);
  }

  lemma FoldedDirWalked(p: Buffer, q: Buffer, sb: Superblock, d: U64, dir: Inode, b: nat, k: nat, dirent: nat,
                        edits: set<nat>, bit: nat)
    requires ReadInode(p, sb, d) == Success(dir) && FoldedEntry(p, sb, dir, b, k, dirent)
    requires SameExcept(p, q, edits) && DirClear(p, sb, d, edits, b)
    requires SameExcept(Folded(p, sb, dir, b, k, dirent), q, {bit}) && DirBlockClear(sb, dir, b, {bit})
    ensures var g, h := ListingGraph(p, sb), ListingGraph(q, sb);
            DirsOf(h(d)) == DirsOf(g(d)) && DeletedOf(h(d)) == DeletedOf(g(d))
  {
    hide ReadInode, SameExcept, DirClear, DirBlock, DirBlockClear, Gather, DirsOf, DeletedOf, Folded, Foldable, NameFits,
         BlockAt, SlotOf;
    OtherBlocksSame(p, q, sb, d, b, edits);
    FoldedBlockWalked(p, q, sb, dir, b, k, dirent, bit);
    WalkedGatherSame(DirBlock(p, sb, dir), DirBlock(q, sb, dir), UFS_NDADDR);
  }

  /** The edit stays off every directory block the walk reads, save for the folded field in its own block. */
  ghost predicate WalkClear(p: Buffer, sb: Superblock, ino: U64, d: U64, dir: Inode, b: nat, k: nat, dirent: nat)
    requires HasGroups(sb) && FoldedEntry(p, sb, dir, b, k, dirent)
  {
    var edits := FoldEdits(p, sb, ino, dir, b, k, dirent);
    && (forall c | c in Collect(ListingGraph(p, sb)).visited :: DirClear(p, sb, c, edits, if c == d then b else -1))
    && DirBlockClear(sb, dir, b, {BitByte(p, sb, ino)})
  }

  /**
   * Fold, then recover: the file comes back with exactly its old content, and the names recovered are those that were
   * recovered before: the name left in the slack is not among the findings unless it already was.
   */
  lemma FoldThenRecover(p: Buffer, sb: Superblock, ino: U64, d: U64, dir: Inode, b: nat, k: nat, dirent: nat)
    requires LiveFile(p, sb, ino) && HasGroups(sb)
    requires ReadInode(p, sb, d) == Success(dir) && FoldedEntry(p, sb, dir, b, k, dirent)
    requires ResidueIntact(p, sb, ino, FoldEdits(p, sb, ino, dir, b, k, dirent))
    requires WalkClear(p, sb, ino, d, dir, b, k, dirent)
    ensures HasBitmap(p, sb, Div(ino, sb.ipg))
    ensures var q, inode := FoldAway(p, sb, ino, dir, b, k, dirent), ReadInode(p, sb, ino).value;
            && DeletedFile(None, ino, inode.size, FileAt(p, sb, ino).value) in RecoveredFrom(q)
            && Collect(ListingGraph(q, sb)).deleted == Collect(ListingGraph(p, sb)).deleted
  {
    hide ParsePrimarySb, ReadInode, HasBitmap, FileAt, FileClear, PrimaryClear, HeaderClear, InodeClear, SameExcept,
         InodeUsed, InodeCount, RecoveredFrom, FoldedEntry, FoldAway, FoldEdits, BitByte, DirClear, DirBlockClear,
         Collect, DirsOf, DeletedOf, ListingGraph, Folded, ClearBit, Rem;
    var q, edits := FoldAway(p, sb, ino, dir, b, k, dirent), FoldEdits(p, sb, ino, dir, b, k, dirent);
    FoldAwayChanges(p, sb, ino, dir, b, k, dirent);
    BitFreesInode(p, q, sb, ino, edits);
    FreedIsCarved(p, q, sb, ino, edits);
    var g, h := ListingGraph(p, sb), ListingGraph(q, sb);
    forall c | c in Collect(g).visited
      ensures DirsOf(h(c)) == DirsOf(g(c)) && DeletedOf(h(c)) == DeletedOf(g(c))
    {
      if c == d {
        FoldedDirWalked(p, q, sb, d, dir, b, k, dirent, edits, BitByte(p, sb, ino));
      } else {
        OtherDirSame(p, q, sb, c, edits);
      }
    }
    CollectedSame(g, h);
  }
}
