/** The live listing of a directory after either way of deleting one of its entries (core/src/dir.rs). */
module LiveView {
  import opened Bytes
  import opened Gathering
  import opened Superblocks
  import opened Images
  import opened Inodes
  import opened BlockMap
  import opened Directory
  import opened DirectoryEdits
  import opened Listing
  import opened Frames
  import opened Deletion

  // ── one block among twelve ─────────────────────────────────────────────────

  lemma {:induction false} LiveGatherSame(f: nat -> seq<DirEntry>, h: nat -> seq<DirEntry>, n: nat)
    requires forall j: nat | j < n :: Live(h(j)) == Live(f(j))
    ensures Live(Gather(h, n)) == Live(Gather(f, n))
  {
    hide Live;
    if n > 0 {
      LiveGatherSame(f, h, n - 1);
      LiveAppend(Gather(f, n - 1), f(n - 1));
      LiveAppend(Gather(h, n - 1), h(n - 1));
    }
  }

  lemma Cancels<T>(a: seq<T>, x: seq<T>, y: seq<T>, b: seq<T>)
    ensures a + x == a + y <==> x == y
    ensures x + b == y + b <==> x == y
  {
    assert (a + x)[|a|..] == x && (a + y)[|a|..] == y;
    if x + b == y + b {
      assert |x| == |y| && (x + b)[..|x|] == x && (y + b)[..|y|] == y;
    }
  }

  /** When all blocks but `b` agree, the whole live listings agree just when those of block `b` do. */
  lemma {:induction false} LiveGatherIff(f: nat -> seq<DirEntry>, h: nat -> seq<DirEntry>, n: nat, b: nat)
    requires b < n && forall j: nat | j < n && j != b :: Live(h(j)) == Live(f(j))
    ensures Live(Gather(h, n)) == Live(Gather(f, n)) <==> Live(h(b)) == Live(f(b))
  {
    hide Live;
    var fs, hs := Gather(f, n - 1), Gather(h, n - 1);
    LiveAppend(fs, f(n - 1));
    LiveAppend(hs, h(n - 1));
    if b == n - 1 {
      LiveGatherSame(f, h, n - 1);
      Cancels(Live(fs), Live(h(b)), Live(f(b)), []);
    } else {
      LiveGatherIff(f, h, n - 1, b);
      Cancels([], Live(hs), Live(fs), Live(f(n - 1)));
    }
  }

  // ── the two edits in the image ─────────────────────────────────────────────

  /** Record `k` of the direct block `b`, with a predecessor whose length field has room for both. */
  ghost predicate Foldable(p: Buffer, sb: Superblock, dir: Inode, b: nat, k: nat, dirent: nat)
    requires sb.fsize > 0 && b < UFS_NDADDR
  {
    && k > 0 && SlotLies(p, sb, dir, b, k, dirent)
    && var block := BlockAt(p, sb, dir, b);
       RecLenAt(sb.endian, block, k - 1) + RecLenAt(sb.endian, block, k) <= 65535
  }

  /** The bytes of block `b` that the walk sees. */
  ghost function BlockAt(p: Buffer, sb: Superblock, dir: Inode, b: nat): Buffer
    requires sb.fsize > 0 && b < UFS_NDADDR
  {
    Clip(p, FragByte(sb, dir.direct[b]), WalkLen(sb, dir, b))
  }

  /** Where the predecessor's length field is. */
  ghost function LengthField(p: Buffer, sb: Superblock, dir: Inode, b: nat, k: nat, dirent: nat): nat
    requires sb.fsize > 0 && b < UFS_NDADDR && Foldable(p, sb, dir, b, k, dirent)
  {
    FragByte(sb, dir.direct[b]) + RecordOffset(sb.endian, BlockAt(p, sb, dir, b), k - 1) + 4
  }

  ghost function Zeroed(p: Buffer, dirent: nat): (q: Buffer)
    requires dirent + 4 <= |p|
    ensures |q| == |p|
  {
    Splice(p, Write(dirent, Zeros(4)))
  }

  ghost function Folded(p: Buffer, sb: Superblock, dir: Inode, b: nat, k: nat, dirent: nat): (q: Buffer)
    requires sb.fsize > 0 && b < UFS_NDADDR && Foldable(p, sb, dir, b, k, dirent)
    ensures |q| == |p|
  {
    var block := BlockAt(p, sb, dir, b);
    FieldInside(p, sb, dir, b, k, dirent);
    Splice(p, Write(LengthField(p, sb, dir, b, k, dirent),
                    Encode(sb.endian, 2, RecLenAt(sb.endian, block, k - 1) + RecLenAt(sb.endian, block, k))))
  }

  lemma FieldInside(p: Buffer, sb: Superblock, dir: Inode, b: nat, k: nat, dirent: nat)
    requires sb.fsize > 0 && b < UFS_NDADDR && Foldable(p, sb, dir, b, k, dirent)
    ensures LengthField(p, sb, dir, b, k, dirent) + 4 <= |p|
  {
    hide FragByte, Walk, RecordOffset, WalkLen, RecLenAt;
  }

  /** An edit of the clipped bytes is the same edit of the image. */
  lemma ClipSpliced(p: Buffer, at: nat, len: nat, off: nat, bytes: seq<Byte>)
    requires bytes != [] && off + |bytes| <= |Clip(p, at, len)|
    ensures at + off + |bytes| <= |p|
    ensures Clip(Splice(p, Write(at + off, bytes)), at, len) == Splice(Clip(p, at, len), Write(off, bytes))
  {
    var a, b := Clip(Splice(p, Write(at + off, bytes)), at, len), Splice(Clip(p, at, len), Write(off, bytes));
    var q := Splice(p, Write(at + off, bytes));
    hide Splice, Clip;
    ClipLen(p, at, len);
    ClipLen(q, at, len);
    forall i | 0 <= i < |a|
      ensures a[i] == b[i]
    {
      ClipAt(q, at, len, i);
      ClipAt(p, at, len, i);
      SplicedAt(p, Write(at + off, bytes), at + i);
      SplicedAt(Clip(p, at, len), Write(off, bytes), i);
    }
  }

  /** Both edits, seen through block `b`. */
  lemma EditedBlocks(p: Buffer, sb: Superblock, dir: Inode, b: nat, k: nat, dirent: nat)
    requires sb.fsize > 0 && b < UFS_NDADDR && Foldable(p, sb, dir, b, k, dirent) && dirent + 4 <= |p|
    ensures k < |DirBlock(p, sb, dir)(b)|
    ensures var block := BlockAt(p, sb, dir, b);
            && DirBlock(p, sb, dir)(b) == Walk(sb.endian, block)
            && DirBlock(Zeroed(p, dirent), sb, dir)(b)
                 == Walk(sb.endian, ZeroIno(block, RecordOffset(sb.endian, block, k)))
            && DirBlock(Folded(p, sb, dir, b, k, dirent), sb, dir)(b)
                 == Walk(sb.endian, FoldIntoPrevious(sb.endian, block, k))
  {
    hide FragByte, Walk, RecordOffset, Left, RecLenAt, Encode, Clip, Splice;
    SlotInBlock(p, sb, dir, b, k, dirent);
    var at, len, block := FragByte(sb, dir.direct[b]), WalkLen(sb, dir, b), BlockAt(p, sb, dir, b);
    ClipSpliced(p, at, len, RecordOffset(sb.endian, block, k), Zeros(4));
    ClipSpliced(p, at, len, RecordOffset(sb.endian, block, k - 1) + 4,
                Encode(sb.endian, 2, RecLenAt(sb.endian, block, k - 1) + RecLenAt(sb.endian, block, k)));
  }

  ghost predicate OthersClear(p: Buffer, sb: Superblock, d: U64, b: nat, k: nat, dirent: nat)
    requires ReadInode(p, sb, d).Success? && sb.fsize > 0 && b < UFS_NDADDR
    requires Foldable(p, sb, ReadInode(p, sb, d).value, b, k, dirent)
  {
    var field := LengthField(p, sb, ReadInode(p, sb, d).value, b, k, dirent);
    DirClear(p, sb, d, {dirent, dirent + 1, dirent + 2, dirent + 3, field, field + 1}, b)
  }

  /** An edit off the dinode and off every direct block but `b` leaves both. */
  lemma OtherBlocksSame(p: Buffer, q: Buffer, sb: Superblock, d: U64, b: nat, edits: set<nat>)
    requires SameExcept(p, q, edits) && DirClear(p, sb, d, edits, b)
    requires ReadInode(p, sb, d).Success? && sb.fsize > 0 && b < UFS_NDADDR
    ensures ReadInode(q, sb, d) == ReadInode(p, sb, d)
    ensures var dir := ReadInode(p, sb, d).value;
            forall j: nat | j < UFS_NDADDR && j != b :: DirBlock(q, sb, dir)(j) == DirBlock(p, sb, dir)(j)
  {
    hide SameExcept, DirBlock, DirBlockClear, ReadInode, InodeClear;
    ReadableIsAddressable(p, sb, d);
    InodeSame(p, q, sb, edits, d);
    var dir := ReadInode(p, sb, d).value;
    forall j: nat | j < UFS_NDADDR && j != b
      ensures DirBlock(q, sb, dir)(j) == DirBlock(p, sb, dir)(j)
    {
      DirBlockSame(p, q, sb, dir, j, edits);
    }
  }

  lemma EditsAreLocal(p: Buffer, sb: Superblock, dir: Inode, b: nat, k: nat, dirent: nat)
    requires sb.fsize > 0 && b < UFS_NDADDR && Foldable(p, sb, dir, b, k, dirent) && dirent + 4 <= |p|
    ensures var field := LengthField(p, sb, dir, b, k, dirent);
            var edits := {dirent, dirent + 1, dirent + 2, dirent + 3, field, field + 1};
            && SameExcept(p, Zeroed(p, dirent), edits)
            && SameExcept(p, Folded(p, sb, dir, b, k, dirent), edits)
  {
    hide Foldable, LengthField, RecLenAt, BlockAt, Encode;
    FieldInside(p, sb, dir, b, k, dirent);
  }

  /**
   * `list_dir` after either way of deleting an entry: the two listings are the same if and only if the predecessor's
   * name length lies within its record or the predecessor is itself deleted.
   */
  lemma ListingsAgreeIff(p: Buffer, sb: Superblock, d: U64, b: nat, k: nat, dirent: nat)
    requires ReadInode(p, sb, d).Success? && sb.fsize > 0 && b < UFS_NDADDR && dirent + 4 <= |p|
    requires Foldable(p, sb, ReadInode(p, sb, d).value, b, k, dirent) && OthersClear(p, sb, d, b, k, dirent)
    ensures var dir := ReadInode(p, sb, d).value;
            var zeroed, folded := Zeroed(p, dirent), Folded(p, sb, dir, b, k, dirent);
            var block := BlockAt(p, sb, dir, b);
            && ListDir(zeroed, sb, d).Success? && ListDir(folded, sb, d).Success?
            && (ListDir(zeroed, sb, d) == ListDir(folded, sb, d)
                <==> NameFits(sb.endian, block, k - 1) || Walk(sb.endian, block)[k - 1].deleted)
  {
    hide SameExcept, DirClear, Foldable, LengthField, BlockAt, ReadInode, DirBlock, Gather, Walk, Live, Zeroed, Folded,
         NameFits, RecordOffset, RecLenAt, ZeroIno, FoldIntoPrevious;
    var dir := ReadInode(p, sb, d).value;
    var zeroed, folded := Zeroed(p, dirent), Folded(p, sb, dir, b, k, dirent);
    var field := LengthField(p, sb, dir, b, k, dirent);
    var edits := {dirent, dirent + 1, dirent + 2, dirent + 3, field, field + 1};
    EditsAreLocal(p, sb, dir, b, k, dirent);
    OtherBlocksSame(p, zeroed, sb, d, b, edits);
    OtherBlocksSame(p, folded, sb, d, b, edits);
    BlocksAgreeIff(p, sb, dir, b, k, dirent);
    LiveGatherIff(DirBlock(folded, sb, dir), DirBlock(zeroed, sb, dir), UFS_NDADDR, b);
  }

  lemma BlocksAgreeIff(p: Buffer, sb: Superblock, dir: Inode, b: nat, k: nat, dirent: nat)
    requires sb.fsize > 0 && b < UFS_NDADDR && Foldable(p, sb, dir, b, k, dirent) && dirent + 4 <= |p|
    ensures var block := BlockAt(p, sb, dir, b);
            && 0 < k < |Walk(sb.endian, block)|
            && (Live(DirBlock(Zeroed(p, dirent), sb, dir)(b))
                  == Live(DirBlock(Folded(p, sb, dir, b, k, dirent), sb, dir)(b))
                <==> NameFits(sb.endian, block, k - 1) || Walk(sb.endian, block)[k - 1].deleted)
  {
    hide DirBlock, Walk, Live, Zeroed, Folded, NameFits, RecordOffset, RecLenAt, ZeroIno, FoldIntoPrevious, FragByte,
         WalkLen, Clip;
    EditedBlocks(p, sb, dir, b, k, dirent);
    DeletionsAgreeOnLive(sb.endian, BlockAt(p, sb, dir, b), k);
  }
}
