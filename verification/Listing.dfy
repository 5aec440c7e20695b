/** Listing a directory over its direct blocks (core/src/dir.rs) and its agreement with the file's content. */
module Listing {
  import opened Bytes
  import opened Gathering
  import opened Superblocks
  import opened Inodes
  import opened BlockMap
  import opened Directory

  /** What is left of `size` bytes before block `k`. */
  function Left(size: U64, bsize: U64, k: nat): (left: U64)
    ensures left <= size
  {
    if k * bsize <= size then size - k * bsize else 0
  }

  lemma LeftFirst(size: U64, bsize: U64)
    ensures Left(size, bsize, 0) == size
  {
  }

  lemma LeftNext(size: U64, bsize: U64, k: nat)
    ensures Left(size, bsize, k + 1) == SatSub(Left(size, bsize, k), bsize)
  {
    assert (k + 1) * bsize == k * bsize + bsize;
  }

  lemma {:induction false} LeftNone(size: U64, bsize: U64, k: nat, j: nat)
    requires Left(size, bsize, k) == 0 && k <= j
    ensures Left(size, bsize, j) == 0
    decreases j
  {
    if k < j {
      LeftNone(size, bsize, k, j - 1);
      LeftNext(size, bsize, j - 1);
    }
  }

  /** The block size a directory is walked with. */
  function WalkBsize(sb: Superblock): U64 {
    if sb.bsize > 0 then sb.bsize else DIRBLKSIZ
  }

  /** The slots of direct block `k`: none past the end of the file or under a hole. */
  function DirBlock(p: Buffer, sb: Superblock, inode: Inode): nat -> seq<DirEntry>
    requires sb.fsize > 0
  {
    (k: nat) =>
      var left := Left(inode.size, WalkBsize(sb), k);
      if k < UFS_NDADDR && left > 0 && inode.direct[k] != 0
      then Walk(sb.endian, Clip(p, FragByte(sb, inode.direct[k]), Min(left, WalkBsize(sb))))
      else []
  }

  /** Every slot of a directory, in order, deleted ones included. */
  function DirSlots(p: Buffer, sb: Superblock, inode: Inode): seq<DirEntry> {
    if sb.fsize <= 0 then [] else Gather(DirBlock(p, sb, inode), UFS_NDADDR)
  }

  method ListDirEntries(p: Buffer, sb: Superblock, inode: Inode) returns (entries: seq<DirEntry>)
    ensures entries == DirSlots(p, sb, inode)
  {
    hide Gather, Walk, FragByte, Clip, Left;
    entries := [];
    if sb.fsize <= 0 {
      return;
    }
    ghost var f := DirBlock(p, sb, inode);
    var bsize := WalkBsize(sb);
    var remaining: U64 := inode.size;
    LeftFirst(inode.size, bsize);
    GatherNone(f);
    for i := 0 to UFS_NDADDR
      invariant entries == Gather(f, i) && remaining == Left(inode.size, bsize, i)
    {
      GatherStep(f, i);
      LeftNext(inode.size, bsize, i);
      if remaining == 0 {
        forall j: nat | i <= j < UFS_NDADDR
          ensures f(j) == []
        {
          LeftNone(inode.size, bsize, i, j);
        }
        GatherNoMore(f, i, UFS_NDADDR);
        return;
      }
      var addr := inode.direct[i];
      if addr == 0 {
        remaining := SatSub(remaining, bsize);
        continue;
      }
      var want := Min(remaining, bsize);
      var block := ReadBlock(p, sb, addr, want);
      entries := WalkBlock(block.value, sb.endian, entries);
      remaining := SatSub(remaining, bsize);
    }
  }

  /**
   * A directory is walked block by block, `fs_bsize` bytes at a time, or 512 when that is not positive: block `k` gives
   * the slots of its bytes that exist, up to the end of the file, and a zero pointer gives none.
   */
  lemma DirBlockBytes(p: Buffer, sb: Superblock, inode: Inode, k: nat, bsize: nat, start: nat, end: nat)
    requires sb.fsize > 0 && k < 12 && bsize == (if sb.bsize > 0 then sb.bsize else 512)
    requires start == inode.direct[k] * sb.fsize && k * bsize < inode.size
    requires end == start + Min(inode.size - k * bsize, bsize)
    ensures DirBlock(p, sb, inode)(k) ==
              if inode.direct[k] == 0 || start >= |p| then [] else Walk(sb.endian, p[start..Min(end, |p|)])
  {
    hide Walk;
    WalkZeros(sb.endian, 0);
    assert Zeros(0) == [];
  }

  lemma DirBlockPast(p: Buffer, sb: Superblock, inode: Inode, k: nat)
    requires sb.fsize > 0 && inode.size <= k * (if sb.bsize > 0 then sb.bsize else 512)
    ensures DirBlock(p, sb, inode)(k) == []
  {
  }

  function ListDirAll(p: Buffer, sb: Superblock, ino: U64): Result<seq<DirEntry>, UfsError> {
    match ReadInode(p, sb, ino)
    case Failure(e) => Failure(e)
    case Success(inode) => Success(DirSlots(p, sb, inode))
  }

  function ListDir(p: Buffer, sb: Superblock, ino: U64): Result<seq<DirEntry>, UfsError> {
    match ListDirAll(p, sb, ino)
    case Failure(e) => Failure(e)
    case Success(slots) => Success(Live(slots))
  }

  // ── agreement with the content ─────────────────────────────────────────────

  /** The slots of the `k`-th `bsize`-byte chunk of some content. */
  ghost function ChunkSlots(e: Endian, content: Buffer, bsize: U64): nat -> seq<DirEntry>
  {
    (k: nat) =>
      var left := Left(|content|, bsize, k);
      var at := |content| - left;
      Walk(e, content[at..at + Min(left, bsize)])
  }

  /** Every direct block the directory uses lies wholly in the partition. */
  ghost predicate DirectBlocksPresent(p: Buffer, sb: Superblock, inode: Inode)
    requires HasBlocks(sb)
  {
    forall k: nat | k < UFS_NDADDR && Left(inode.size, sb.bsize, k) > 0 && inode.direct[k] != 0 ::
      FragByte(sb, inode.direct[k]) + Min(Left(inode.size, sb.bsize, k), sb.bsize) <= |p|
  }

  lemma LeftStarts(size: U64, bsize: U64, k: nat)
    requires Left(size, bsize, k) > 0
    ensures size - Left(size, bsize, k) == k * bsize
  {
  }

  /** A block that is present, or a hole, has the slots of the content it stands for. */
  lemma BlockSlots(p: Buffer, sb: Superblock, addr: U64, chunk: Buffer)
    requires HasBlocks(sb) && |chunk| <= sb.bsize && chunk == BlockBytes(p, sb, addr)[..|chunk|]
    requires addr != 0 ==> FragByte(sb, addr) + |chunk| <= |p|
    ensures Walk(sb.endian, chunk) ==
              if addr == 0 then [] else Walk(sb.endian, Clip(p, FragByte(sb, addr), |chunk|))
  {
    hide FragByte, Walk, BlockBytes;
    ClipPrefix(p, sb, addr, |chunk|);
    if addr == 0 {
      WalkZeros(sb.endian, |chunk|);
      assert chunk == Zeros(|chunk|);
    } else {
      var block := Clip(p, FragByte(sb, addr), |chunk|);
      assert |block| == |chunk|;
      assert block + Zeros(0) == block;
    }
  }

  lemma ChunkIsBlock(p: Buffer, sb: Superblock, inode: Inode, k: nat)
    requires HasBlocks(sb) && k < UFS_NDADDR && DirectBlocksPresent(p, sb, inode)
    requires inode.size <= |p|
    ensures DirBlock(p, sb, inode)(k) == ChunkSlots(sb.endian, FileBytes(p, sb, inode), sb.bsize)(k)
  {
    hide FileBytes, FragByte, Walk, Left, LeafAt, BlockBytes, Clip;
    var left := Left(inode.size, sb.bsize, k);
    var at, len := inode.size - left, Min(left, sb.bsize);
    var chunk := FileBytes(p, sb, inode)[at..at + len];
    if left > 0 {
      LeftStarts(inode.size, sb.bsize, k);
      FileBlock(p, sb, inode, k, at, len);
      LeafDirect(p, sb, inode, Nindir(sb), k);
      BlockSlots(p, sb, inode.direct[k], chunk);
    } else {
      WalkNothing(sb.endian, chunk);
    }
  }

  /**
   * A directory listing is its content parsed: walking the direct blocks gives the slots of the first twelve
   * `bsize`-chunks of the file, holes included.
   */
  lemma ListingIsContent(p: Buffer, sb: Superblock, inode: Inode)
    requires HasBlocks(sb) && inode.size <= |p| && DirectBlocksPresent(p, sb, inode)
    ensures DirSlots(p, sb, inode) ==
              Gather(ChunkSlots(sb.endian, FileBytes(p, sb, inode), sb.bsize), UFS_NDADDR)
  {
    hide Gather, FileBytes, DirBlock, ChunkSlots;
    var f, g := DirBlock(p, sb, inode), ChunkSlots(sb.endian, FileBytes(p, sb, inode), sb.bsize);
    forall k: nat | k < UFS_NDADDR
      ensures f(k) == g(k)
    {
      ChunkIsBlock(p, sb, inode, k);
    }
    GatherSame(f, g, UFS_NDADDR);
  }
}
