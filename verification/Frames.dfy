/** What each reader looks at: an edit outside its bytes changes nothing it returns. */
module Frames {
  import opened Bytes
  import opened Superblocks
  import opened Images
  import opened Inodes
  import opened Radix
  import opened BlockMap
  import opened Audit

  // ── superblock ─────────────────────────────────────────────────────────────

  /** No edit inside the superblock regions that locating the primary superblock reads. */
  ghost predicate PrimaryClear(p: Buffer, edits: set<nat>) {
    && Clear(edits, SBLOCK_UFS2, SBLOCK_UFS2 + SB_MIN_LEN)
    && (ParseAt(p, SBLOCK_UFS2) == None ==> Clear(edits, SBLOCK_UFS1, SBLOCK_UFS1 + SB_MIN_LEN))
  }

  lemma ParseSame(p: Buffer, q: Buffer, edits: set<nat>, off: U64)
    requires SameExcept(p, q, edits) && Clear(edits, off, off + SB_MIN_LEN) && off <= |p|
    ensures Parse(p[off..]) == Parse(q[off..])
  {
    hide Parse, SameExcept, Clear;
    SameLength(p, q, edits);
    if off + SB_MIN_LEN <= |p| {
      SameSlice(p, q, edits, off, off + SB_MIN_LEN);
      ParsePrefix(p[off..]);
      ParsePrefix(q[off..]);
      assert p[off..][..SB_MIN_LEN] == p[off..off + SB_MIN_LEN];
      assert q[off..][..SB_MIN_LEN] == q[off..off + SB_MIN_LEN];
    } else {
      ParseShort(p[off..]);
      ParseShort(q[off..]);
    }
  }

  lemma ParseShort(data: Buffer)
    requires |data| < SB_MIN_LEN
    ensures Parse(data) == Failure(Truncated("superblock", SB_MIN_LEN, |data|))
  {
  }

  lemma SameLength(p: Buffer, q: Buffer, edits: set<nat>)
    requires SameExcept(p, q, edits)
    ensures |p| == |q|
  {
  }

  lemma PrimarySame(p: Buffer, q: Buffer, edits: set<nat>)
    requires SameExcept(p, q, edits) && PrimaryClear(p, edits) && ParsePrimarySb(p).Success?
    ensures ParsePrimarySb(q) == ParsePrimarySb(p)
  {
    hide Parse, SameExcept, Clear;
    SameLength(p, q, edits);
    var offs := [SBLOCK_UFS2, SBLOCK_UFS1];
    assert offs[1..] == [SBLOCK_UFS1] && [SBLOCK_UFS1][1..] == [];
    FirstUnfold(p, offs);
    FirstUnfold(q, offs);
    FirstUnfold(p, [SBLOCK_UFS1]);
    FirstUnfold(q, [SBLOCK_UFS1]);
    FirstUnfold(p, []);
    FirstUnfold(q, []);
    if SBLOCK_UFS2 <= |p| {
      ParseSame(p, q, edits, SBLOCK_UFS2);
      assert p[SBLOCK_UFS2..] == p[SBLOCK_UFS2..|p|] && q[SBLOCK_UFS2..] == q[SBLOCK_UFS2..|q|];
    }
    if SBLOCK_UFS1 <= |p| && ParseAt(p, SBLOCK_UFS2) == None {
      ParseSame(p, q, edits, SBLOCK_UFS1);
      assert p[SBLOCK_UFS1..] == p[SBLOCK_UFS1..|p|] && q[SBLOCK_UFS1..] == q[SBLOCK_UFS1..|q|];
    }
  }

  // ── inode ──────────────────────────────────────────────────────────────────

  ghost predicate InodeClear(sb: Superblock, edits: set<nat>, ino: nat)
    requires Addressable(sb)
  {
    Clear(edits, InodeOffset(sb, ino), InodeOffset(sb, ino) + sb.InodeSize())
  }

  lemma InodeSame(p: Buffer, q: Buffer, sb: Superblock, edits: set<nat>, ino: U64)
    requires SameExcept(p, q, edits) && ReadInode(p, sb, ino).Success?
    requires Addressable(sb) && InodeClear(sb, edits, ino)
    ensures ReadInode(q, sb, ino) == ReadInode(p, sb, ino)
  {
    hide SameExcept, Clear, ReadInode, InodeOffset, ParseDinode;
    ReadInodeExact(p, sb, ino);
    ReadInodeExact(q, sb, ino);
    SameLength(p, q, edits);
    SameSlice(p, q, edits, InodeOffset(sb, ino), InodeOffset(sb, ino) + sb.InodeSize());
  }

  // ── block map ──────────────────────────────────────────────────────────────

  /** No edit inside the pointer blocks along a path. */
  ghost predicate PathClear(p: Buffer, sb: Superblock, edits: set<nat>, addr: U64, digits: seq<nat>)
    requires HasBlocks(sb)
    decreases |digits|
  {
    digits != [] && addr != 0 ==>
      && Clear(edits, FragByte(sb, addr), FragByte(sb, addr) + sb.bsize)
      && PathClear(p, sb, edits, PtrAt(p, sb, addr, digits[0]), digits[1..])
  }

  lemma PtrSame(p: Buffer, q: Buffer, sb: Superblock, edits: set<nat>, addr: U64, k: nat)
    requires HasBlocks(sb) && SameExcept(p, q, edits)
    requires addr != 0 ==> Clear(edits, FragByte(sb, addr), FragByte(sb, addr) + sb.bsize)
    ensures PtrAt(p, sb, addr, k) == PtrAt(q, sb, addr, k)
  {
    hide SameExcept, FragByte, Decode;
    SameLength(p, q, edits);
    var at, w := FragByte(sb, addr) + sb.version.Span(k), sb.version.PtrSize();
    if addr != 0 && sb.version.Span(k) + w <= sb.bsize && at + w <= |p| {
      SameSlice(p, q, edits, at, at + w);
    }
  }

  lemma {:induction false} FollowSame(p: Buffer, q: Buffer, sb: Superblock, edits: set<nat>, addr: U64, digits: seq<nat>)
    requires HasBlocks(sb) && SameExcept(p, q, edits) && PathClear(p, sb, edits, addr, digits)
    ensures Follow(p, sb, addr, digits) == Follow(q, sb, addr, digits)
    decreases |digits|
  {
    hide SameExcept, Clear, PtrAt;
    if addr == 0 {
      FollowHole(p, sb, digits);
      FollowHole(q, sb, digits);
    } else if digits != [] {
      PtrSame(p, q, sb, edits, addr, digits[0]);
      FollowSame(p, q, sb, edits, PtrAt(p, sb, addr, digits[0]), digits[1..]);
    }
  }

  /** No edit inside what locates block `bi`, nor inside its first `len` bytes. */
  ghost predicate BlockClear(p: Buffer, sb: Superblock, inode: Inode, edits: set<nat>, bi: nat, len: nat)
    requires HasBlocks(sb)
  {
    var n := Nindir(sb);
    if bi >= Base(n, 4) then true
    else
      PathOfIndex(n, bi);
      var path, leaf := PathOf(n, bi), LeafAt(p, sb, inode, n, bi);
      && (path.level > 0 ==> PathClear(p, sb, edits, inode.indirect[path.level - 1], path.digits))
      && (leaf != 0 ==> Clear(edits, FragByte(sb, leaf), FragByte(sb, leaf) + len))
  }

  /** How much of block `bi` belongs to the file. */
  ghost function BlockLen(sb: Superblock, inode: Inode, bi: nat): nat
    requires HasBlocks(sb)
  {
    if bi * sb.bsize <= inode.size then Min(sb.bsize, inode.size - bi * sb.bsize) else 0
  }

  /** No edit inside any pointer block or data block the file's content comes from. */
  ghost predicate FileClear(p: Buffer, sb: Superblock, inode: Inode, edits: set<nat>)
    requires HasBlocks(sb)
  {
    forall bi: nat :: BlockLen(sb, inode, bi) > 0 ==> BlockClear(p, sb, inode, edits, bi, BlockLen(sb, inode, bi))
  }

  lemma LeafSame(p: Buffer, q: Buffer, sb: Superblock, inode: Inode, edits: set<nat>, bi: nat, len: nat)
    requires HasBlocks(sb) && SameExcept(p, q, edits) && BlockClear(p, sb, inode, edits, bi, len)
    ensures LeafAt(p, sb, inode, Nindir(sb), bi) == LeafAt(q, sb, inode, Nindir(sb), bi)
  {
    hide SameExcept, Clear, Follow, PathClear, Base, PathOf;
    var n := Nindir(sb);
    if bi < Base(n, 4) {
      PathOfIndex(n, bi);
      var path := PathOf(n, bi);
      if path.level > 0 {
        FollowSame(p, q, sb, edits, inode.indirect[path.level - 1], path.digits);
      }
    }
  }

  lemma BlockBytesSame(p: Buffer, q: Buffer, sb: Superblock, edits: set<nat>, addr: U64, len: nat)
    requires HasBlocks(sb) && SameExcept(p, q, edits) && len <= sb.bsize
    requires addr != 0 ==> Clear(edits, FragByte(sb, addr), FragByte(sb, addr) + len)
    ensures BlockBytes(p, sb, addr)[..len] == BlockBytes(q, sb, addr)[..len]
  {
    hide FragByte, BlockBytes, SameExcept;
    ClipPrefix(p, sb, addr, len);
    ClipPrefix(q, sb, addr, len);
    if addr != 0 {
      ClipSame(p, q, edits, FragByte(sb, addr), len);
    }
  }

  lemma ClipSame(p: Buffer, q: Buffer, edits: set<nat>, at: nat, len: nat)
    requires SameExcept(p, q, edits) && Clear(edits, at, at + len)
    ensures Clip(p, at, len) == Clip(q, at, len)
  {
    hide SameExcept;
    SameLength(p, q, edits);
    if at < |p| {
      SameSlice(p, q, edits, at, Min(at + len, |p|));
    }
  }

  lemma FileBlockSame(p: Buffer, q: Buffer, sb: Superblock, inode: Inode, edits: set<nat>, bi: nat, at: nat, len: nat)
    requires HasBlocks(sb) && SameExcept(p, q, edits) && FileClear(p, sb, inode, edits)
    requires at == bi * sb.bsize && at < inode.size && len == Min(sb.bsize, inode.size - at)
    ensures FileBytes(p, sb, inode)[at..at + len] == FileBytes(q, sb, inode)[at..at + len]
  {
    hide SameExcept, FileBytes, BlockBytes, LeafAt, Clear, Base, PathOf, PathClear;
    var leaf := LeafAt(p, sb, inode, Nindir(sb), bi);
    assert BlockLen(sb, inode, bi) == len;
    assert BlockClear(p, sb, inode, edits, bi, len);
    LeafSame(p, q, sb, inode, edits, bi, len);
    FileBlock(p, sb, inode, bi, at, len);
    FileBlock(q, sb, inode, bi, at, len);
    if bi < Base(Nindir(sb), 4) {
      BlockBytesSame(p, q, sb, edits, leaf, len);
    } else {
      HolePastReach(p, sb, inode, bi);
      HolePastReach(q, sb, inode, bi);
    }
  }

  /** Editing outside a file's pointer and data blocks leaves its content alone. */
  lemma FileSame(p: Buffer, q: Buffer, sb: Superblock, inode: Inode, edits: set<nat>)
    requires HasBlocks(sb) && SameExcept(p, q, edits) && FileClear(p, sb, inode, edits)
    ensures FileBytes(p, sb, inode) == FileBytes(q, sb, inode)
  {
    hide SameExcept, FileBytes, FileClear;
    var a, b := FileBytes(p, sb, inode), FileBytes(q, sb, inode);
    forall j | 0 <= j < inode.size
      ensures a[j] == b[j]
    {
      var bi, r := DivMod(j, sb.bsize);
      var at := j - r;
      var len := Min(sb.bsize, inode.size - at);
      FileBlockSame(p, q, sb, inode, edits, bi, at, len);
      SameAt(a, b, at, len, r);
    }
  }

  lemma SameAt(a: seq<Byte>, b: seq<Byte>, at: nat, len: nat, r: nat)
    requires |a| == |b| && at + len <= |a| && a[at..at + len] == b[at..at + len] && r < len
    ensures a[at + r] == b[at + r]
  {
    assert a[at..at + len][r] == b[at..at + len][r];
  }
}
