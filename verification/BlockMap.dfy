/** From an inode to its bytes: fragment reads, the pointer trees and byte assembly (core/src/file.rs). */
module BlockMap {
  import opened Bytes
  import opened Gathering
  import opened Inodes
  import opened Radix
  import opened Superblocks

  // ── fragment reads ─────────────────────────────────────────────────────────

  /** The bytes of `[at, at + len)` that exist. */
  function Clip(p: Buffer, at: nat, len: nat): Buffer {
    p[Min(at, |p|)..Min(at + len, |p|)]
  }

  lemma ClipLen(p: Buffer, at: nat, len: nat)
    ensures |Clip(p, at, len)| == if at >= |p| then 0 else Min(len, |p| - at)
  {
  }

  lemma ClipAt(p: Buffer, at: nat, len: nat, i: nat)
    requires i < |Clip(p, at, len)|
    ensures at + i < |p| && Clip(p, at, len)[i] == p[at + i]
  {
  }

  /** Byte offset of a fragment address. */
  function FragByte(sb: Superblock, addr: nat): nat
    requires sb.fsize > 0
  {
    addr * sb.fsize
  }

  /** Read `len` bytes at fragment `addr` (`read_block`, core/src/dir.rs): short, never wrong, past the end. */
  function ReadBlock(p: Buffer, sb: Superblock, addr: U64, len: U64): (r: Result<Buffer, UfsError>)
    ensures r.Success? <==> sb.fsize > 0
    ensures r.Success? ==> r.value == Clip(p, FragByte(sb, addr), len)
  {
    if sb.fsize <= 0 then
      Failure(ImpossibleGeometry("fs_fsize", AsU64(sb.fsize), I64_MAX))
    else
      var start := SatMul(addr, sb.fsize);
      var end := Min(SatAdd(start, len), |p|);
      match Get(p, start, if end >= start then end else start)
      case Some(block) => Success(block)
      case None => Success([])
  }

  // ── indirect blocks ────────────────────────────────────────────────────────

  /** The `idx`-th pointer of the indirect block at `addr`; 0 for a hole or a slot outside the block. */
  function IndirectPtr(p: Buffer, sb: Superblock, addr: U64, idx: U64): U64 {
    if addr == 0 then 0
    else
      var bsize := if sb.bsize > 0 then sb.bsize else 0;
      match ReadBlock(p, sb, addr, bsize)
      case Failure(_) => 0
      case Success(block) =>
        ReadPtr(block, sb.version, sb.endian, SatMul(idx, sb.version.PtrSize()))
  }

  /** What slot `k` of the pointer block at `addr` says, straight from the partition. */
  ghost function PtrAt(p: Buffer, sb: Superblock, addr: U64, k: nat): U64
    requires HasBlocks(sb)
  {
    var at := FragByte(sb, addr) + sb.version.Span(k);
    var w := sb.version.PtrSize();
    if addr != 0 && sb.version.Span(k) + w <= sb.bsize && at + w <= |p|
    then ReadPtr(p, sb.version, sb.endian, at)
    else 0
  }

  /** A pointer slot is the 8 bytes of UFS2, or the 4 of UFS1, at its place in the block. */
  lemma PointerBytes(p: Buffer, sb: Superblock, addr: U64, k: nat)
    requires HasBlocks(sb)
    ensures var w := if sb.version == Ufs2 then 8 else 4;
            var at: nat := addr * sb.fsize + k * w;
            PtrAt(p, sb, addr, k) ==
              if addr != 0 && k * w + w <= sb.bsize && at + w <= |p| then Decode(sb.endian, p[at..at + w]) else 0
  {
    hide Decode;
  }

  lemma IndirectPtrExact(p: Buffer, sb: Superblock, addr: U64, idx: U64)
    requires HasBlocks(sb)
    ensures IndirectPtr(p, sb, addr, idx) == PtrAt(p, sb, addr, idx)
  {
    hide FragByte, ReadPtr, Clip;
    if addr != 0 {
      PtrInClip(p, sb, FragByte(sb, addr), idx);
    }
  }

  lemma PtrInClip(p: Buffer, sb: Superblock, lo: nat, idx: U64)
    requires HasBlocks(sb)
    ensures var at, w := sb.version.Span(idx), sb.version.PtrSize();
            ReadPtr(Clip(p, lo, sb.bsize), sb.version, sb.endian, SatMul(idx, w)) ==
              if at + w <= sb.bsize && lo + at + w <= |p| then ReadPtr(p, sb.version, sb.endian, lo + at) else 0
  {
    hide Decode;
    var at, w := sb.version.Span(idx), sb.version.PtrSize();
    assert SatMul(idx, w) == Clamp(at);
    if at + w <= sb.bsize && lo + at + w <= |p| {
      ReadInside(sb.endian, p, lo, Min(lo + sb.bsize, |p|), at, w);
    }
  }

  // ── one logical block ──────────────────────────────────────────────────────

  /** The pointers-per-block count the walk uses. */
  function Nindir(sb: Superblock): U64 {
    if sb.nindir > 0 then sb.nindir else 0
  }

  /** Logical block `bi` to its data fragment; 0 is a hole. */
  function ResolveBlock(p: Buffer, sb: Superblock, inode: Inode, bi: U64, nindir: U64): U64 {
    if bi < UFS_NDADDR then inode.direct[bi]
    else if nindir == 0 then 0
    else
      var i := bi - UFS_NDADDR;
      if i < nindir then IndirectPtr(p, sb, inode.indirect[0], i)
      else
        var i := i - nindir;
        var nindir2 := SatMul(nindir, nindir);
        if i < nindir2 then
          var sib := IndirectPtr(p, sb, inode.indirect[1], Div(i, nindir));
          IndirectPtr(p, sb, sib, Rem(i, nindir))
        else
          var i := i - nindir2;
          var nindir3 := SatMul(nindir2, nindir);
          if i >= nindir3 then 0
          else
            var dib := IndirectPtr(p, sb, inode.indirect[2], Div(i, nindir2));
            var rem := Rem(i, nindir2);
            var sib := IndirectPtr(p, sb, dib, Div(rem, nindir));
            IndirectPtr(p, sb, sib, Rem(rem, nindir))
  }

  /** Walk down from a pointer block, one digit per level. */
  ghost function Follow(p: Buffer, sb: Superblock, addr: U64, digits: seq<nat>): U64
    requires HasBlocks(sb)
    decreases |digits|
  {
    if digits == [] then addr else Follow(p, sb, PtrAt(p, sb, addr, digits[0]), digits[1..])
  }

  /** The fragment of logical block `bi` read off its path; 0 past the triple reach. */
  ghost function LeafAt(p: Buffer, sb: Superblock, inode: Inode, n: nat, bi: nat): U64
    requires HasBlocks(sb)
  {
    if bi >= Base(n, 4) then 0
    else
      var path := PathOf(n, bi);
      PathOfIndex(n, bi);
      if path.level == 0 then inode.direct[path.digits[0]]
      else Follow(p, sb, inode.indirect[path.level - 1], path.digits)
  }

  lemma LeafDirect(p: Buffer, sb: Superblock, inode: Inode, n: nat, k: nat)
    requires HasBlocks(sb) && k < UFS_NDADDR
    ensures LeafAt(p, sb, inode, n, k) == inode.direct[k]
  {
    hide Follow, Digits;
    var square: nat := n * n;
    var cube: nat := n * n * n;
    assert Base(n, 4) == NDADDR + n + square + cube;
  }

  lemma {:induction false} FollowHole(p: Buffer, sb: Superblock, digits: seq<nat>)
    requires HasBlocks(sb)
    ensures Follow(p, sb, 0, digits) == 0
    decreases |digits|
  {
    if digits != [] {
      FollowHole(p, sb, digits[1..]);
    }
  }

  lemma Follow1(p: Buffer, sb: Superblock, addr: U64, a: nat)
    requires HasBlocks(sb)
    ensures Follow(p, sb, addr, [a]) == PtrAt(p, sb, addr, a)
  {
    assert [a][1..] == [];
  }

  lemma Follow2(p: Buffer, sb: Superblock, addr: U64, a: nat, b: nat)
    requires HasBlocks(sb)
    ensures Follow(p, sb, addr, [a, b]) == PtrAt(p, sb, PtrAt(p, sb, addr, a), b)
  {
    assert [a, b][1..] == [b];
    Follow1(p, sb, PtrAt(p, sb, addr, a), b);
  }

  lemma Follow3(p: Buffer, sb: Superblock, addr: U64, a: nat, b: nat, c: nat)
    requires HasBlocks(sb)
    ensures Follow(p, sb, addr, [a, b, c]) == PtrAt(p, sb, PtrAt(p, sb, PtrAt(p, sb, addr, a), b), c)
  {
    assert [a, b, c][1..] == [b, c];
    Follow2(p, sb, PtrAt(p, sb, addr, a), b, c);
  }

  lemma DigitsOf(n: nat, i: nat)
    requires n > 0
    ensures Digits(n, 1, i) == [i]
    ensures Digits(n, 2, i) == [i / n, i % n]
    ensures n * n > 0 && Digits(n, 3, i) == [i / (n * n), i % (n * n) / n, i % (n * n) % n]
  {
    PowValues(n);
    PowPositive(n, 2);
    assert forall j: nat :: Digits(n, 1, j) == [j / 1];
    assert forall j: nat :: Digits(n, 2, j) == [j / n] + Digits(n, 1, j % n);
    assert Digits(n, 3, i) == [i / (n * n)] + Digits(n, 2, i % (n * n));
  }

  /**
   * The saturating walk is the exact one: for every u64 block index and every pointer count the superblock can
   * hold, resolving follows the index's own path of digits, and yields a hole past the triple reach.
   */
  lemma ResolveExact(p: Buffer, sb: Superblock, inode: Inode, bi: U64, n: U64)
    requires HasBlocks(sb) && n < 0x8000_0000
    ensures ResolveBlock(p, sb, inode, bi, n) == LeafAt(p, sb, inode, n, bi)
  {
    hide LeafAt, ResolveBlock;
    if bi < UFS_NDADDR {
      LeafDirect(p, sb, inode, n, bi);
      ResolveDirect(p, sb, inode, bi, n);
    } else if n == 0 {
      ResolveWithoutFanOut(p, sb, inode, bi);
    } else if bi < Base(n, 2) {
      ResolveSingleExact(p, sb, inode, bi, n);
    } else if bi < Base(n, 3) {
      ResolveDoubleExact(p, sb, inode, bi, n);
    } else {
      ResolveTripleExact(p, sb, inode, bi, n);
    }
  }

  lemma ResolveDirect(p: Buffer, sb: Superblock, inode: Inode, bi: U64, n: U64)
    requires bi < UFS_NDADDR
    ensures ResolveBlock(p, sb, inode, bi, n) == inode.direct[bi]
  {
    hide IndirectPtr;
  }

  lemma ResolveWithoutFanOut(p: Buffer, sb: Superblock, inode: Inode, bi: U64)
    requires HasBlocks(sb) && bi >= UFS_NDADDR
    ensures ResolveBlock(p, sb, inode, bi, 0) == LeafAt(p, sb, inode, 0, bi) == 0
  {
    hide IndirectPtr;
  }

  lemma ResolveSingleExact(p: Buffer, sb: Superblock, inode: Inode, bi: U64, n: U64)
    requires HasBlocks(sb) && 0 < n < 0x8000_0000 && Base(n, 1) <= bi < Base(n, 2)
    ensures ResolveBlock(p, sb, inode, bi, n) == LeafAt(p, sb, inode, n, bi)
  {
    hide IndirectPtr, PtrAt, Digits, SatMul, Follow;
    SquareExact(n);
    ProductPositive(n, n * n);
    IndirectPtrExact(p, sb, inode.indirect[0], bi - Base(n, 1));
    DigitsOf(n, bi - Base(n, 1));
    Follow1(p, sb, inode.indirect[0], bi - Base(n, 1));
  }

  lemma ResolveDoubleExact(p: Buffer, sb: Superblock, inode: Inode, bi: U64, n: U64)
    requires HasBlocks(sb) && 0 < n < 0x8000_0000 && Base(n, 2) <= bi < Base(n, 3)
    ensures ResolveBlock(p, sb, inode, bi, n) == LeafAt(p, sb, inode, n, bi)
  {
    hide IndirectPtr, PtrAt, Digits, SatMul, Follow;
    SquareExact(n);
    ProductPositive(n, n * n);
    var i: U64 := bi - Base(n, 2);
    var sib := IndirectPtr(p, sb, inode.indirect[1], Div(i, n));
    IndirectPtrExact(p, sb, inode.indirect[1], Div(i, n));
    IndirectPtrExact(p, sb, sib, Rem(i, n));
    DigitsOf(n, i);
    Follow2(p, sb, inode.indirect[1], Div(i, n), Rem(i, n));
  }

  lemma SquareExact(n: U64)
    requires n < 0x8000_0000
    ensures SatMul(n, n) == n * n < 0x4000_0000_0000_0000
  {
    MulBound(n, n, 0x7FFF_FFFF, 0x7FFF_FFFF);
  }

  lemma ResolveTripleExact(p: Buffer, sb: Superblock, inode: Inode, bi: U64, n: U64)
    requires HasBlocks(sb) && 0 < n < 0x8000_0000 && bi >= Base(n, 3)
    ensures ResolveBlock(p, sb, inode, bi, n) == LeafAt(p, sb, inode, n, bi)
  {
    hide IndirectPtr, PtrAt, Digits, SatMul;
    SquareExact(n);
    var n2: U64 := SatMul(n, n);
    var i: U64 := bi - Base(n, 3);
    CubeGuard(n, bi);
    if bi < Base(n, 4) {
      forall addr: U64, idx: U64
        ensures IndirectPtr(p, sb, addr, idx) == PtrAt(p, sb, addr, idx)
      {
        IndirectPtrExact(p, sb, addr, idx);
      }
      DigitsOf(n, i);
      var rem := Rem(i, n2);
      Follow3(p, sb, inode.indirect[2], Div(i, n2), Div(rem, n), Rem(rem, n));
    }
  }

  /** Even when `n^3` saturates, the guard on the triple level decides exactly. */
  lemma CubeGuard(n: U64, bi: U64)
    requires 0 < n < 0x8000_0000 && bi >= Base(n, 3)
    ensures bi - Base(n, 3) >= SatMul(SatMul(n, n), n) <==> bi >= Base(n, 4)
  {
    SquareExact(n);
    var n3: nat := n * n * n;
    assert SatMul(SatMul(n, n), n) == Clamp(n3);
    assert Base(n, 4) == Base(n, 3) + n3;
  }

  // ── the file as a tree ─────────────────────────────────────────────────────

  /** The leaf addresses under a tree of height `h`: one per block, left to right, zeros under a hole. */
  ghost function Leaves(p: Buffer, sb: Superblock, n: nat, h: nat, addr: U64): seq<U64>
    requires HasBlocks(sb)
    decreases h, 1
  {
    if h == 0 then [addr]
    else if addr == 0 then Zeros(Pow(n, h))
    else Gather(Subtree(p, sb, n, h, addr), n)
  }

  ghost function Subtree(p: Buffer, sb: Superblock, n: nat, h: nat, addr: U64): nat -> seq<U64>
    requires HasBlocks(sb) && h > 0
    decreases h, 0
  {
    k => Leaves(p, sb, n, h - 1, PtrAt(p, sb, addr, k))
  }

  lemma {:induction false} LeavesCount(p: Buffer, sb: Superblock, n: nat, h: nat, addr: U64)
    requires HasBlocks(sb)
    ensures |Leaves(p, sb, n, h, addr)| == Pow(n, h)
    decreases h
  {
    if h > 0 && addr != 0 {
      var f := Subtree(p, sb, n, h, addr);
      forall k: nat | k < n
        ensures |f(k)| == Pow(n, h - 1)
      {
        LeavesCount(p, sb, n, h - 1, PtrAt(p, sb, addr, k));
      }
      GatherEvenly(f, n, Pow(n, h - 1));
    }
  }

  /** Leaf `i` of a tree is where the digits of `i` lead. */
  lemma {:induction false} LeafFollows(p: Buffer, sb: Superblock, n: nat, h: nat, addr: U64, i: nat)
    requires HasBlocks(sb) && n > 0 && i < Pow(n, h)
    ensures |Leaves(p, sb, n, h, addr)| == Pow(n, h)
    ensures Leaves(p, sb, n, h, addr)[i] == Follow(p, sb, addr, Digits(n, h, i))
    decreases h
  {
    LeavesCount(p, sb, n, h, addr);
    if h > 0 {
      var m := Pow(n, h - 1);
      PowPositive(n, h - 1);
      var q, r := DivMod(i, m);
      QuotientBound(q, r, m, n);
      if addr == 0 {
        FollowHole(p, sb, Digits(n, h, i));
      } else {
        LeafOfSubtree(p, sb, n, h, addr, q, r);
        LeafFollows(p, sb, n, h - 1, PtrAt(p, sb, addr, q), r);
        FollowStep(p, sb, addr, q, Digits(n, h - 1, r));
      }
    }
  }

  lemma FollowStep(p: Buffer, sb: Superblock, addr: U64, d: nat, rest: seq<nat>)
    requires HasBlocks(sb)
    ensures Follow(p, sb, addr, [d] + rest) == Follow(p, sb, PtrAt(p, sb, addr, d), rest)
  {
    assert ([d] + rest)[1..] == rest;
  }

  lemma LeafOfSubtree(p: Buffer, sb: Superblock, n: nat, h: nat, addr: U64, q: nat, r: nat)
    requires HasBlocks(sb) && h > 0 && addr != 0 && q < n && r < Pow(n, h - 1)
    ensures |Leaves(p, sb, n, h - 1, PtrAt(p, sb, addr, q))| == Pow(n, h - 1)
    ensures var i := q * Pow(n, h - 1) + r;
            && i < |Leaves(p, sb, n, h, addr)|
            && Leaves(p, sb, n, h, addr)[i] == Leaves(p, sb, n, h - 1, PtrAt(p, sb, addr, q))[r]
  {
    hide Pow, Gather;
    var f := Subtree(p, sb, n, h, addr);
    forall k: nat | k < n
      ensures |f(k)| == Pow(n, h - 1)
    {
      LeavesCount(p, sb, n, h - 1, PtrAt(p, sb, addr, k));
    }
    GatherIndex(f, n, Pow(n, h - 1), q, r);
  }

  /** Every leaf of a file in order: 12 direct pointers, then perfect trees of height 1, 2 and 3. */
  ghost function FileLeaves(p: Buffer, sb: Superblock, inode: Inode): seq<U64>
    requires HasBlocks(sb)
  {
    var n := Nindir(sb);
    inode.direct
    + Leaves(p, sb, n, 1, inode.indirect[0])
    + Leaves(p, sb, n, 2, inode.indirect[1])
    + Leaves(p, sb, n, 3, inode.indirect[2])
  }

  lemma FileLeafAt(p: Buffer, sb: Superblock, inode: Inode, bi: nat)
    requires HasBlocks(sb)
    ensures |FileLeaves(p, sb, inode)| == Base(Nindir(sb), 4)
    ensures bi < Base(Nindir(sb), 4) ==>
              FileLeaves(p, sb, inode)[bi] == LeafAt(p, sb, inode, Nindir(sb), bi)
  {
    hide Leaves, Digits, Follow;
    var n := Nindir(sb);
    LeavesCount(p, sb, n, 1, inode.indirect[0]);
    LeavesCount(p, sb, n, 2, inode.indirect[1]);
    LeavesCount(p, sb, n, 3, inode.indirect[2]);
    BaseStep(n, 1);
    BaseStep(n, 2);
    BaseStep(n, 3);
    if NDADDR <= bi < Base(n, 4) {
      var level := if bi < Base(n, 2) then 1 else if bi < Base(n, 3) then 2 else 3;
      PowValues(n);
      LeafFollows(p, sb, n, level, inode.indirect[level - 1], bi - Base(n, level));
    }
  }

  // ── the file as bytes ──────────────────────────────────────────────────────

  /** One whole block: zeros for a hole and for whatever lies past the end of the partition. */
  ghost function BlockBytes(p: Buffer, sb: Superblock, addr: U64): (b: seq<Byte>)
    requires HasBlocks(sb)
    ensures |b| == sb.bsize
  {
    if addr == 0 then Zeros(sb.bsize)
    else
      var here := Clip(p, FragByte(sb, addr), sb.bsize);
      here + Zeros(sb.bsize - |here|)
  }

  ghost function BlockRow(p: Buffer, sb: Superblock, leaves: seq<U64>): nat -> seq<Byte>
    requires HasBlocks(sb)
  {
    (k: nat) => if k < |leaves| then BlockBytes(p, sb, leaves[k]) else Zeros(sb.bsize)
  }

  /** The content of a file: all its leaves in order, cut or zero-extended to `di_size`. */
  ghost function FileBytes(p: Buffer, sb: Superblock, inode: Inode): (b: seq<Byte>)
    requires HasBlocks(sb)
    ensures |b| == inode.size
  {
    var leaves := FileLeaves(p, sb, inode);
    var flat := Gather(BlockRow(p, sb, leaves), |leaves|);
    if inode.size <= |flat| then flat[..inode.size] else flat + Zeros(inode.size - |flat|)
  }

  /** What reading an inode's content must return. */
  ghost function FileContent(p: Buffer, sb: Superblock, inode: Inode): Result<seq<Byte>, UfsError> {
    if sb.bsize <= 0 then Failure(ImpossibleGeometry("fs_bsize", AsU64(sb.bsize), I64_MAX))
    else if sb.fsize <= 0 then Failure(ImpossibleGeometry("fs_fsize", AsU64(sb.fsize), I64_MAX))
    else if inode.size > |p| then Failure(ImpossibleGeometry("di_size", inode.size, |p|))
    else Success(FileBytes(p, sb, inode))
  }

  /** Block `bi` of the content is the block its path leads to. */
  lemma FileBlock(p: Buffer, sb: Superblock, inode: Inode, bi: nat, at: nat, len: nat)
    requires HasBlocks(sb)
    requires at == bi * sb.bsize && len <= sb.bsize && at + len <= inode.size
    ensures FileBytes(p, sb, inode)[at..at + len] == BlockBytes(p, sb, LeafAt(p, sb, inode, Nindir(sb), bi))[..len]
  {
    hide FileLeaves, LeafAt, BlockBytes, Gather, Base;
    var leaves := FileLeaves(p, sb, inode);
    var f := BlockRow(p, sb, leaves);
    var flat := Gather(f, |leaves|);
    FileLeafAt(p, sb, inode, bi);
    if bi < |leaves| {
      GatherEvenRow(f, |leaves|, sb.bsize, bi, at);
      SliceOfSlice(flat, at, at + sb.bsize, 0, len);
      CutOrPad(flat, inode.size, at, at + len);
    } else {
      GatherPast(f, |leaves|, sb.bsize, bi, at);
      HolePastReach(p, sb, inode, bi);
      assert FileBytes(p, sb, inode)[at..at + len] == Zeros(len);
    }
  }

  lemma CutOrPad(flat: seq<Byte>, size: nat, lo: nat, hi: nat)
    requires lo <= hi <= |flat| && hi <= size
    ensures (if size <= |flat| then flat[..size] else flat + Zeros(size - |flat|))[lo..hi] == flat[lo..hi]
  {
  }

  lemma HoleReads(p: Buffer, sb: Superblock, len: nat)
    requires HasBlocks(sb) && len <= sb.bsize
    ensures BlockBytes(p, sb, 0)[..len] == Zeros(len)
  {
  }

  lemma HolePastReach(p: Buffer, sb: Superblock, inode: Inode, bi: nat)
    requires HasBlocks(sb) && bi >= Base(Nindir(sb), 4)
    ensures BlockBytes(p, sb, LeafAt(p, sb, inode, Nindir(sb), bi)) == Zeros(sb.bsize)
  {
  }

  /** Content is refused, with the offending field, value and limit, unless the geometry is positive and it fits. */
  lemma ContentRefused(p: Buffer, sb: Superblock, inode: Inode)
    ensures FileContent(p, sb, inode).Success? <==> sb.bsize > 0 && sb.fsize > 0 && inode.size <= |p|
    ensures FileContent(p, sb, inode).Success? ==> |FileContent(p, sb, inode).value| == inode.size
    ensures sb.bsize > 0 && sb.fsize > 0 && inode.size > |p| ==>
              FileContent(p, sb, inode) == Failure(ImpossibleGeometry("di_size", inode.size, |p|))
    ensures sb.bsize <= 0 ==>
              FileContent(p, sb, inode)
              == Failure(ImpossibleGeometry("fs_bsize", (sb.bsize + 0x1_0000_0000_0000_0000) % 0x1_0000_0000_0000_0000,
                                            0x7FFF_FFFF_FFFF_FFFF))
    ensures sb.bsize > 0 && sb.fsize <= 0 ==>
              FileContent(p, sb, inode)
              == Failure(ImpossibleGeometry("fs_fsize", (sb.fsize + 0x1_0000_0000_0000_0000) % 0x1_0000_0000_0000_0000,
                                            0x7FFF_FFFF_FFFF_FFFF))
  {
    hide FileBytes;
  }

  /** A path of digits leads to its block. */
  lemma PathLeads(p: Buffer, sb: Superblock, inode: Inode, n: nat, path: BlockPath)
    requires HasBlocks(sb) && path.Valid(n) && path.level > 0
    ensures LeafAt(p, sb, inode, n, IndexOf(n, path)) == Follow(p, sb, inode.indirect[path.level - 1], path.digits)
  {
    hide PathOf, IndexOf, Base, Follow;
    IndexOfPath(n, path);
  }

  lemma ValueTwo(n: nat, a: nat, b: nat)
    ensures Value(n, [a]) == a && Value(n, [a, b]) == a * n + b
  {
    PowValues(n);
    assert [a][1..] == [] && [a, b][1..] == [b];
    assert Value(n, [b]) == b * Pow(n, 0) + Value(n, [b][1..]);
    assert Value(n, [a]) == a * Pow(n, 0) + Value(n, [a][1..]);
  }

  lemma ValueThree(n: nat, a: nat, b: nat, c: nat)
    ensures Value(n, [a, b, c]) == a * (n * n) + b * n + c
  {
    PowValues(n);
    ValueTwo(n, b, c);
    assert [a, b, c][1..] == [b, c];
  }

  /** The first `nindir` blocks past the twelfth are the pointers of the single-indirect block. */
  lemma SinglePointer(p: Buffer, sb: Superblock, inode: Inode, a: nat)
    requires HasBlocks(sb) && a < sb.nindir
    ensures LeafAt(p, sb, inode, Nindir(sb), 12 + a) == PtrAt(p, sb, inode.indirect[0], a)
  {
    hide LeafAt, PtrAt, Value;
    ValueTwo(sb.nindir, a, 0);
    PathLeads(p, sb, inode, sb.nindir, BlockPath(1, [a]));
    Follow1(p, sb, inode.indirect[0], a);
  }

  /** Then come the pointers of the blocks that the double-indirect block points at. */
  lemma DoublePointer(p: Buffer, sb: Superblock, inode: Inode, a: nat, b: nat, bi: nat)
    requires HasBlocks(sb) && a < sb.nindir && b < sb.nindir
    requires bi == 12 + sb.nindir + (a * sb.nindir + b)
    ensures LeafAt(p, sb, inode, Nindir(sb), bi) == PtrAt(p, sb, PtrAt(p, sb, inode.indirect[1], a), b)
  {
    hide LeafAt, PtrAt, Value;
    ValueTwo(sb.nindir, a, b);
    PathLeads(p, sb, inode, sb.nindir, BlockPath(2, [a, b]));
    Follow2(p, sb, inode.indirect[1], a, b);
  }

  /** Then those three levels down from the triple-indirect block. */
  lemma TriplePointer(p: Buffer, sb: Superblock, inode: Inode, n: nat, a: nat, b: nat, c: nat, bi: nat)
    requires HasBlocks(sb) && n == sb.nindir && a < n && b < n && c < n
    requires bi == 12 + n + n * n + (a * (n * n) + b * n + c)
    ensures LeafAt(p, sb, inode, Nindir(sb), bi)
         == PtrAt(p, sb, PtrAt(p, sb, PtrAt(p, sb, inode.indirect[2], a), b), c)
  {
    hide LeafAt, PtrAt, Value;
    ValueThree(sb.nindir, a, b, c);
    PathLeads(p, sb, inode, sb.nindir, BlockPath(3, [a, b, c]));
    Follow3(p, sb, inode.indirect[2], a, b, c);
  }

  function DivCeil(a: U64, b: U64): U64
    requires b > 0
  {
    QuotientAtMost(a, b);
    if a % b == 0 then a / b else a / b + 1
  }

  /** Block `bi` of `DivCeil(size, bsize)` starts inside the file; the one after the last does not. */
  lemma BlockStarts(size: U64, bsize: U64, bi: nat)
    requires bsize > 0
    ensures bi < DivCeil(size, bsize) <==> bi * bsize < size
  {
    var q, r := DivMod(size, bsize);
    if bi < q {
      SlotEnd(bi, q, bsize);
    } else if bi > q {
      SlotEnd(q, bi, bsize);
    }
  }

  /** The loop asks for a block past the triple reach exactly when the file is longer than the map's reach. */
  lemma PastReachIff(sb: Superblock, size: U64)
    requires HasBlocks(sb)
    ensures DivCeil(size, sb.bsize) > Base(Nindir(sb), 4) <==> size > Base(Nindir(sb), 4) * sb.bsize
  {
    hide DivCeil, Base;
    BlockStarts(size, sb.bsize, Base(Nindir(sb), 4));
  }

  /** No file that passes the size check can do so exactly when the partition itself is within the map's reach. */
  lemma ReachCoversPartition(sb: Superblock, partLen: U64)
    requires HasBlocks(sb)
    ensures (forall size: U64 | size <= partLen :: DivCeil(size, sb.bsize) <= Base(Nindir(sb), 4))
        <==> partLen <= Base(Nindir(sb), 4) * sb.bsize
  {
    hide DivCeil, Base;
    PastReachIff(sb, partLen);
    assert DivCeil(partLen, sb.bsize) > Base(Nindir(sb), 4) <==> partLen > Base(Nindir(sb), 4) * sb.bsize;
    forall size: U64
      ensures DivCeil(size, sb.bsize) > Base(Nindir(sb), 4) <==> size > Base(Nindir(sb), 4) * sb.bsize
    {
      PastReachIff(sb, size);
    }
  }

  /** Every such block is a hole. */
  lemma PastReachIsHole(p: Buffer, sb: Superblock, inode: Inode, bi: U64)
    requires HasBlocks(sb) && bi >= Base(Nindir(sb), 4)
    ensures ResolveBlock(p, sb, inode, bi, Nindir(sb)) == 0
  {
    hide ResolveBlock, PathOf;
    ResolveExact(p, sb, inode, bi, Nindir(sb));
  }

  /** Assemble a file into a zero-filled buffer, block by block. */
  method ReadInodeFile(p: Buffer, sb: Superblock, inode: Inode) returns (r: Result<seq<Byte>, UfsError>)
    ensures r == FileContent(p, sb, inode)
    ensures r.Success? <==> sb.bsize > 0 && sb.fsize > 0 && inode.size <= |p|
    ensures r.Success? ==> |r.value| == inode.size
    ensures sb.bsize > 0 && sb.fsize > 0 && inode.size > |p| ==>
              r == Failure(ImpossibleGeometry("di_size", inode.size, |p|))
  {
    hide FileBytes;
    if sb.bsize <= 0 {
      return Failure(ImpossibleGeometry("fs_bsize", AsU64(sb.bsize), I64_MAX));
    }
    if sb.fsize <= 0 {
      return Failure(ImpossibleGeometry("fs_fsize", AsU64(sb.fsize), I64_MAX));
    }
    if inode.size > |p| {
      return Failure(ImpossibleGeometry("di_size", inode.size, |p|));
    }
    var out := new Byte[inode.size](_ => 0);
    if inode.size == 0 {
      assert out[..] == FileBytes(p, sb, inode);
      return Success(out[..]);
    }
    assert out[..] == Zeros(inode.size);
    FillBlocks(p, sb, inode, out);
    return Success(out[..]);
  }

  method FillBlocks(p: Buffer, sb: Superblock, inode: Inode, out: array<Byte>)
    requires HasBlocks(sb) && out.Length == inode.size && out[..] == Zeros(inode.size)
    modifies out
    ensures out[..] == FileBytes(p, sb, inode)
  {
    hide FileBytes, DivCeil, AtBlock, HoldsPrefix;
    var size: U64, bsize: U64 := inode.size, sb.bsize;
    var nBlocks := DivCeil(size, bsize);
    var remaining: U64 := size;
    var written: U64 := 0;
    var bi: U64 := 0;
    AtFirstBlock(size, bsize);
    NothingHeld(out[..], FileBytes(p, sb, inode));
    while bi < nBlocks
      invariant bi <= nBlocks
      invariant written + remaining == size && AtBlock(size, bsize, bi, written)
      invariant HoldsPrefix(out[..], FileBytes(p, sb, inode), written)
    {
      AtNextBlock(size, bsize, bi, written);
      var thisLen: U64 := Min(remaining, bsize);
      FillBlock(p, sb, inode, bi, out, written, thisLen);
      written := written + thisLen;
      remaining := SatSub(remaining, bsize);
      bi := bi + 1;
    }
    AtLastBlock(size, bsize, bi, written);
    AllHeld(out[..], FileBytes(p, sb, inode));
  }

  /** The loop body: resolve one logical block and copy it in. */
  method FillBlock(p: Buffer, sb: Superblock, inode: Inode, bi: U64, out: array<Byte>, written: U64, thisLen: U64)
    requires HasBlocks(sb) && written < inode.size && AtBlock(inode.size, sb.bsize, bi, written)
    requires thisLen == Min(inode.size - written, sb.bsize)
    requires HoldsPrefix(out[..], FileBytes(p, sb, inode), written)
    modifies out
    ensures HoldsPrefix(out[..], FileBytes(p, sb, inode), written + thisLen)
  {
    hide FileBytes, ResolveBlock, BlockBytes, LeafAt, AtBlock, HoldsPrefix, Overwritten;
    ghost var before := out[..];
    var addr := ResolveBlock(p, sb, inode, bi, Nindir(sb));
    ResolveExact(p, sb, inode, bi, Nindir(sb));
    NextFileBlock(p, sb, inode, bi, written);
    StillZero(before, FileBytes(p, sb, inode), written, thisLen);
    CopyBlock(p, sb, addr, out, written, thisLen);
    Assembled(before, out[..], FileBytes(p, sb, inode), written, thisLen);
  }

  /** Copy what is present of one block over zeros; a hole leaves them. */
  method CopyBlock(p: Buffer, sb: Superblock, addr: U64, out: array<Byte>, written: U64, thisLen: U64)
    requires HasBlocks(sb) && thisLen <= sb.bsize && written + thisLen <= out.Length
    requires out[..][written..written + thisLen] == Zeros(thisLen)
    modifies out
    ensures Overwritten(old(out[..]), out[..], written, BlockBytes(p, sb, addr)[..thisLen])
  {
    hide FragByte, Clip, BlockBytes, Overwritten;
    ghost var before := out[..];
    ClipPrefix(p, sb, addr, thisLen);
    if addr != 0 {
      var block := ReadBlock(p, sb, addr, thisLen);
      var take := Min(|block.value|, thisLen);
      forall j | 0 <= j < take {
        out[written + j] := block.value[j];
      }
      Laid(before, out[..], written, thisLen, block.value);
    } else {
      Laid(before, out[..], written, thisLen, []);
    }
  }

  /** What a short read of a block contributes, padded by the zeros already in the buffer. */
  lemma ClipPrefix(p: Buffer, sb: Superblock, addr: U64, len: nat)
    requires HasBlocks(sb) && len <= sb.bsize
    ensures var block := if addr == 0 then [] else Clip(p, FragByte(sb, addr), len);
            |block| <= len && BlockBytes(p, sb, addr)[..len] == block + Zeros(len - |block|)
  {
    hide FragByte;
  }

  /** A buffer whose zeros at `at` were partly overwritten by `block`. */
  lemma Laid(before: seq<Byte>, after: seq<Byte>, at: nat, len: nat, block: seq<Byte>)
    requires |before| == |after| && at + len <= |before| && |block| <= len
    requires before[at..at + len] == Zeros(len)
    requires forall j | 0 <= j < |after| ::
               after[j] == if at <= j < at + |block| then block[j - at] else before[j]
    ensures Overwritten(before, after, at, block + Zeros(len - |block|))
  {
    forall j | at + |block| <= j < at + len
      ensures after[j] == 0
    {
      assert before[at..at + len][j - at] == 0;
    }
  }

  /** `after` is `before` with `bytes` laid at `at`. */
  ghost predicate Overwritten(before: seq<Byte>, after: seq<Byte>, at: nat, bytes: seq<Byte>) {
    at + |bytes| <= |before| && after == before[..at] + bytes + before[at + |bytes|..]
  }

  /** A buffer that holds the first `at` bytes of some content and is zero after them. */
  ghost predicate HoldsPrefix(buffer: seq<Byte>, content: seq<Byte>, at: nat) {
    at <= |content| && buffer == content[..at] + Zeros(|content| - at)
  }

  lemma StillZero(buffer: seq<Byte>, content: seq<Byte>, at: nat, len: nat)
    requires HoldsPrefix(buffer, content, at) && at + len <= |content|
    ensures |buffer| == |content| && buffer[at..at + len] == Zeros(len)
  {
  }

  /** Laying the next bytes of the content over those zeros. */
  lemma Assembled(before: seq<Byte>, after: seq<Byte>, content: seq<Byte>, at: nat, len: nat)
    requires HoldsPrefix(before, content, at) && at + len <= |content| == |before|
    requires Overwritten(before, after, at, content[at..at + len])
    ensures HoldsPrefix(after, content, at + len)
  {
    assert content[..at + len] == content[..at] + content[at..at + len];
  }

  lemma NothingHeld(buffer: seq<Byte>, content: seq<Byte>)
    requires buffer == Zeros(|content|)
    ensures HoldsPrefix(buffer, content, 0)
  {
  }

  lemma AllHeld(buffer: seq<Byte>, content: seq<Byte>)
    requires HoldsPrefix(buffer, content, |content|)
    ensures buffer == content
  {
  }

  /** `written` bytes precede block `bi` of a file. */
  ghost predicate AtBlock(size: U64, bsize: U64, bi: nat, written: nat) {
    written == Min(bi * bsize, size)
  }

  lemma AtFirstBlock(size: U64, bsize: U64)
    ensures AtBlock(size, bsize, 0, 0)
  {
  }

  lemma AtNextBlock(size: U64, bsize: U64, bi: nat, written: nat)
    requires bsize > 0 && AtBlock(size, bsize, bi, written) && bi < DivCeil(size, bsize)
    ensures written < size
    ensures AtBlock(size, bsize, bi + 1, written + Min(size - written, bsize))
  {
    BlockStarts(size, bsize, bi);
    assert (bi + 1) * bsize == bi * bsize + bsize;
  }

  lemma NextFileBlock(p: Buffer, sb: Superblock, inode: Inode, bi: nat, written: nat)
    requires HasBlocks(sb) && AtBlock(inode.size, sb.bsize, bi, written) && written < inode.size
    ensures var len := Min(inode.size - written, sb.bsize);
            FileBytes(p, sb, inode)[written..written + len]
              == BlockBytes(p, sb, LeafAt(p, sb, inode, Nindir(sb), bi))[..len]
  {
    hide FileBytes, LeafAt, BlockBytes;
    FileBlock(p, sb, inode, bi, written, Min(inode.size - written, sb.bsize));
  }

  lemma AtLastBlock(size: U64, bsize: U64, bi: nat, written: nat)
    requires bsize > 0 && AtBlock(size, bsize, bi, written) && bi >= DivCeil(size, bsize)
    ensures written == size
  {
    BlockStarts(size, bsize, bi);
  }

  /** What reading a file by inode number must return. */
  ghost function FileAt(p: Buffer, sb: Superblock, ino: U64): Result<seq<Byte>, UfsError> {
    match ReadInode(p, sb, ino)
    case Failure(e) => Failure(e)
    case Success(inode) => FileContent(p, sb, inode)
  }

  method ReadFile(p: Buffer, sb: Superblock, ino: U64) returns (r: Result<seq<Byte>, UfsError>)
    ensures r == FileAt(p, sb, ino)
  {
    var inode :- ReadInode(p, sb, ino);
    r := ReadInodeFile(p, sb, inode);
  }
}
