/**
 * Writing a file's blocks and pointer blocks into an image, and reading them back (core/src/file.rs,
 * core/tests/file_indirect.rs): the block map's round trip.
 */
module Layout {
  import opened Bytes
  import opened Superblocks
  import opened Images
  import opened Inodes
  import opened Radix
  import opened BlockMap

  /** A laid-out tree: a hole, a data block, or a pointer block with its children. */
  datatype Node = Hole | Leaf(addr: U64, data: seq<Byte>) | Ptr(addr: U64, kids: seq<Node>) {
    function Root(): U64 {
      if Hole? then 0 else addr
    }
  }

  function RootOf(kids: seq<Node>): nat -> U64 {
    (k: nat) => if k < |kids| then kids[k].Root() else 0
  }

  function Roots(kids: seq<Node>): seq<U64> {
    Tabulate(RootOf(kids), |kids|)
  }

  /** A tree of height `h` with `n` children per pointer block, every pointer fitting its width. */
  ghost predicate Shaped(sb: Superblock, t: Node, n: nat, h: nat)
    decreases h
  {
    match t
    case Hole => true
    case Leaf(addr, data) => h == 0 && addr != 0 && |data| <= sb.bsize
    case Ptr(addr, kids) =>
      && h > 0 && addr != 0 && |kids| == n
      && forall k | k in kids :: Shaped(sb, k, n, h - 1) && k.Root() < Pow256(sb.version.PtrSize())
  }

  /** The image holds every block of the tree. */
  ghost predicate Stored(p: Buffer, sb: Superblock, t: Node)
    requires HasBlocks(sb)
  {
    match t
    case Hole => true
    case Leaf(addr, data) =>
      FragByte(sb, addr) + |data| <= |p| && p[FragByte(sb, addr)..FragByte(sb, addr) + |data|] == data
    case Ptr(addr, kids) =>
      var at, end := FragByte(sb, addr), FragByte(sb, addr) + sb.version.Span(|kids|);
      && end <= |p| && p[at..end] == Serialise(sb.version, sb.endian, Roots(kids))
      && forall k | k in kids :: Stored(p, sb, k)
  }

  /** Down the tree, one digit per level. */
  ghost function NodeAt(t: Node, digits: seq<nat>): Node
    decreases |digits|
  {
    if digits == [] then t
    else if t.Ptr? && digits[0] < |t.kids| then NodeAt(t.kids[digits[0]], digits[1..])
    else Hole
  }

  lemma StoredKid(p: Buffer, sb: Superblock, t: Node, n: nat, h: nat, d: nat)
    requires HasBlocks(sb) && t.Ptr? && Shaped(sb, t, n, h) && Stored(p, sb, t)
    requires d < n && sb.version.Span(n) <= sb.bsize
    ensures PtrAt(p, sb, t.addr, d) == t.kids[d].Root()
    ensures Shaped(sb, t.kids[d], n, h - 1) && Stored(p, sb, t.kids[d])
  {
    hide Serialise, FragByte, ReadPtr, Pow256;
    assert t.kids[d] in t.kids;
    StoredPointer(p, sb.version, sb.endian, FragByte(sb, t.addr), Roots(t.kids), d);
  }

  /** Following pointers through the image is walking the laid-out tree. */
  lemma {:induction false} FollowStored(p: Buffer, sb: Superblock, t: Node, n: nat, digits: seq<nat>)
    requires HasBlocks(sb) && sb.version.Span(n) <= sb.bsize
    requires Shaped(sb, t, n, |digits|) && Stored(p, sb, t) && DigitsBelow(n, digits)
    ensures var leaf := NodeAt(t, digits);
            Follow(p, sb, t.Root(), digits) == leaf.Root() && Shaped(sb, leaf, n, 0) && Stored(p, sb, leaf)
    decreases |digits|
  {
    hide PtrAt, Stored;
    if t.Hole? {
      FollowHole(p, sb, digits);
      HoleBelow(digits);
      HoleStored(p, sb, n);
    } else if digits != [] {
      var d, rest := digits[0], digits[1..];
      assert d in digits && forall x | x in rest :: x in digits;
      StoredKid(p, sb, t, n, |digits|, d);
      FollowStored(p, sb, t.kids[d], n, rest);
    }
  }

  lemma HoleBelow(digits: seq<nat>)
    ensures NodeAt(Hole, digits) == Hole
  {
  }

  lemma HoleStored(p: Buffer, sb: Superblock, n: nat)
    requires HasBlocks(sb)
    ensures Shaped(sb, Hole, n, 0) && Stored(p, sb, Hole)
  {
  }

  // ── writing ────────────────────────────────────────────────────────────────

  /** The writes that lay a tree out: the block itself, then its children in order. */
  ghost function Writes(sb: Superblock, t: Node): seq<Write>
    requires HasBlocks(sb)
    decreases t
  {
    match t
    case Hole => []
    case Leaf(addr, data) => [Write(FragByte(sb, addr), data)]
    case Ptr(addr, kids) =>
      [Write(FragByte(sb, addr), Serialise(sb.version, sb.endian, Roots(kids)))] + WritesOfAll(sb, kids)
  }

  ghost function WritesOfAll(sb: Superblock, ts: seq<Node>): seq<Write>
    requires HasBlocks(sb)
    decreases ts
  {
    if ts == [] then [] else Writes(sb, ts[0]) + WritesOfAll(sb, ts[1..])
  }

  lemma {:induction false} WritesOfMember(sb: Superblock, ts: seq<Node>, t: Node, w: Write)
    requires HasBlocks(sb) && t in ts && w in Writes(sb, t)
    ensures w in WritesOfAll(sb, ts)
    decreases |ts|
  {
    hide Writes;
    if t != ts[0] {
      WritesOfMember(sb, ts[1..], t, w);
    }
  }

  lemma {:induction false} StoredIfWritten(p: Buffer, sb: Superblock, t: Node)
    requires HasBlocks(sb) && forall w | w in Writes(sb, t) :: Holds(p, w)
    ensures Stored(p, sb, t)
    decreases t
  {
    hide FragByte, Serialise;
    match t
    case Hole =>
    case Leaf(addr, data) =>
      assert Holds(p, Writes(sb, t)[0]);
    case Ptr(addr, kids) =>
      assert Holds(p, Writes(sb, t)[0]);
      forall k | k in kids
        ensures Stored(p, sb, k)
      {
        forall w | w in Writes(sb, k)
          ensures Holds(p, w)
        {
          WritesOfMember(sb, kids, k, w);
        }
        StoredIfWritten(p, sb, k);
      }
  }

  // ── laying out a file ──────────────────────────────────────────────────────

  /** A file to lay out: its bytes, the blocks left as holes, and an address for every block of every tree. */
  datatype Plan = Plan(content: Buffer, holes: set<nat>, alloc: (nat, nat) -> U64)

  /** Block `b` has content of its own. */
  ghost predicate Solid(sb: Superblock, plan: Plan, b: nat)
    requires HasBlocks(sb)
  {
    b * sb.bsize < |plan.content| && b !in plan.holes
  }

  ghost predicate AnySolid(sb: Superblock, plan: Plan, lo: nat, hi: nat)
    requires HasBlocks(sb)
  {
    exists b: nat :: lo <= b < hi && Solid(sb, plan, b)
  }

  /** The bytes of block `b`: a whole block, or what is left of the file. */
  ghost function Chunk(sb: Superblock, plan: Plan, b: nat): (c: seq<Byte>)
    requires HasBlocks(sb)
    ensures |c| <= sb.bsize
  {
    var at: nat := b * sb.bsize;
    if at < |plan.content| then plan.content[at..at + Min(sb.bsize, |plan.content| - at)] else []
  }

  /** The tree of height `h` over the blocks from `lo`; a subtree of holes takes no block at all. */
  ghost function Build(sb: Superblock, plan: Plan, n: nat, h: nat, lo: nat): Node
    requires HasBlocks(sb)
    decreases h, 1
  {
    if !AnySolid(sb, plan, lo, lo + Pow(n, h)) then Hole
    else if h == 0 then Leaf(plan.alloc(0, lo), Chunk(sb, plan, lo))
    else Ptr(plan.alloc(h, lo), Tabulate(BuildKid(sb, plan, n, h, lo), n))
  }

  ghost function BuildKid(sb: Superblock, plan: Plan, n: nat, h: nat, lo: nat): nat -> Node
    requires HasBlocks(sb) && h > 0
    decreases h, 0
  {
    (k: nat) => Build(sb, plan, n, h - 1, lo + k * Pow(n, h - 1))
  }

  /** Addresses are non-zero and fit a pointer. */
  ghost predicate AddressesFit(sb: Superblock, plan: Plan) {
    forall h: nat, lo: nat :: 0 < plan.alloc(h, lo) < Pow256(sb.version.PtrSize())
  }

  lemma {:induction false} BuildShaped(sb: Superblock, plan: Plan, n: nat, h: nat, lo: nat)
    requires HasBlocks(sb) && AddressesFit(sb, plan)
    ensures Shaped(sb, Build(sb, plan, n, h, lo), n, h)
    ensures Build(sb, plan, n, h, lo).Root() < Pow256(sb.version.PtrSize())
    decreases h
  {
    hide AnySolid, Chunk, Pow;
    var t := Build(sb, plan, n, h, lo);
    if t.Ptr? {
      forall i | 0 <= i < n
        ensures Shaped(sb, t.kids[i], n, h - 1) && t.kids[i].Root() < Pow256(sb.version.PtrSize())
      {
        assert t.kids[i] == BuildKid(sb, plan, n, h, lo)(i);
        BuildShaped(sb, plan, n, h - 1, lo + i * Pow(n, h - 1));
      }
    }
  }

  /** The leaf a path of digits leads to is the block it numbers. */
  lemma {:induction false} NodeAtBuild(sb: Superblock, plan: Plan, n: nat, lo: nat, digits: seq<nat>)
    requires HasBlocks(sb) && DigitsBelow(n, digits)
    ensures NodeAt(Build(sb, plan, n, |digits|, lo), digits) == Build(sb, plan, n, 0, lo + Value(n, digits))
    decreases |digits|
  {
    hide AnySolid, Build, Pow, Value, Digits, NodeAt;
    var h := |digits|;
    ValueBelow(n, digits);
    if !AnySolid(sb, plan, lo, lo + Pow(n, h)) {
      HoleBelow(digits);
      NothingThere(sb, plan, n, h, lo);
      NothingInside(sb, plan, n, lo, lo + Pow(n, h), lo + Value(n, digits));
    } else if digits == [] {
      ValueOfNone(n);
      NodeAtNone(Build(sb, plan, n, 0, lo));
    } else {
      var d, rest := digits[0], digits[1..];
      assert d in digits && forall x | x in rest :: x in digits;
      ValueStep(n, digits);
      var skip: nat := d * Pow(n, h - 1);
      NodeOfBuilt(sb, plan, n, lo, digits, skip);
      NodeAtBuild(sb, plan, n, lo + skip, rest);
    }
  }

  lemma ValueBelow(n: nat, digits: seq<nat>)
    requires DigitsBelow(n, digits)
    ensures Value(n, digits) < Pow(n, |digits|)
  {
    hide Digits;
    if digits == [] {
      ValueOfNone(n);
    } else {
      assert digits[0] in digits;
      ValueDigits(n, digits);
    }
  }

  lemma NothingThere(sb: Superblock, plan: Plan, n: nat, h: nat, lo: nat)
    requires HasBlocks(sb) && !AnySolid(sb, plan, lo, lo + Pow(n, h))
    ensures Build(sb, plan, n, h, lo) == Hole
  {
    hide Solid, Chunk, Pow;
  }

  lemma NodeAtNone(t: Node)
    ensures NodeAt(t, []) == t
  {
  }

  lemma NodeOfBuilt(sb: Superblock, plan: Plan, n: nat, lo: nat, digits: seq<nat>, skip: nat)
    requires HasBlocks(sb) && digits != [] && digits[0] < n && skip == digits[0] * Pow(n, |digits| - 1)
    requires AnySolid(sb, plan, lo, lo + Pow(n, |digits|))
    ensures NodeAt(Build(sb, plan, n, |digits|, lo), digits)
              == NodeAt(Build(sb, plan, n, |digits| - 1, lo + skip), digits[1..])
  {
    hide AnySolid, Chunk, Pow;
  }

  lemma NothingInside(sb: Superblock, plan: Plan, n: nat, lo: nat, hi: nat, b: nat)
    requires HasBlocks(sb) && !AnySolid(sb, plan, lo, hi) && lo <= b < hi
    ensures Build(sb, plan, n, 0, b) == Hole
  {
    hide Solid, Chunk;
    assert Pow(n, 0) == 1;
  }

  lemma ValueStep(n: nat, digits: seq<nat>)
    requires digits != []
    ensures Value(n, digits) == digits[0] * Pow(n, |digits| - 1) + Value(n, digits[1..])
  {
  }

  lemma ValueOfNone(n: nat)
    ensures Value(n, []) == 0
  {
  }

  // ── the whole file ─────────────────────────────────────────────────────────

  /** The fifteen trees of a file: twelve single blocks, then one tree of each height. */
  ghost function Forest(sb: Superblock, plan: Plan): seq<Node>
    requires HasBlocks(sb)
  {
    Tabulate(ForestTree(sb, plan), UFS_NDADDR + UFS_NIADDR)
  }

  ghost function ForestTree(sb: Superblock, plan: Plan): nat -> Node
    requires HasBlocks(sb)
  {
    (i: nat) =>
      var n := Nindir(sb);
      if i < UFS_NDADDR then Build(sb, plan, n, 0, i)
      else if i < UFS_NDADDR + UFS_NIADDR then Build(sb, plan, n, i - 11, Base(n, i - 11))
      else Hole
  }

  /** The inode whose pointers are the roots of the forest. */
  ghost predicate PointsAt(sb: Superblock, plan: Plan, inode: Inode)
    requires HasBlocks(sb)
  {
    && inode.size == |plan.content|
    && (forall i | 0 <= i < UFS_NDADDR :: inode.direct[i] == Forest(sb, plan)[i].Root())
    && (forall i | 0 <= i < UFS_NIADDR :: inode.indirect[i] == Forest(sb, plan)[UFS_NDADDR + i].Root())
  }

  /** What a plan needs: pointers that fit their width and their block, and no content out of the map's reach. */
  ghost predicate PlanFits(sb: Superblock, plan: Plan)
    requires HasBlocks(sb)
  {
    && AddressesFit(sb, plan) && sb.version.Span(Nindir(sb)) <= sb.bsize
    && forall b: nat | Solid(sb, plan, b) :: b < Base(Nindir(sb), 4)
  }

  /** The writes that lay the whole file out. */
  ghost function FileWrites(sb: Superblock, plan: Plan): seq<Write>
    requires HasBlocks(sb)
  {
    WritesOfAll(sb, Forest(sb, plan))
  }

  /** The content with its hole blocks zeroed. */
  ghost function Holed(sb: Superblock, plan: Plan): (c: seq<Byte>)
    requires HasBlocks(sb)
    ensures |c| == |plan.content|
  {
    seq(|plan.content|, j requires 0 <= j < |plan.content| => if j / sb.bsize in plan.holes then 0 else plan.content[j])
  }

  lemma ForestStored(q: Buffer, sb: Superblock, ts: seq<Node>, t: Node)
    requires HasBlocks(sb) && t in ts && HoldsAll(q, WritesOfAll(sb, ts))
    ensures Stored(q, sb, t)
  {
    hide Writes, WritesOfAll, Stored, Holds;
    forall w | w in Writes(sb, t)
      ensures Holds(q, w)
    {
      WritesOfMember(sb, ts, t, w);
    }
    StoredIfWritten(q, sb, t);
  }

  /** In an image that holds the layout, block `bi` resolves to the block laid out for it. */
  lemma LaidLeaf(q: Buffer, sb: Superblock, plan: Plan, inode: Inode, bi: nat)
    requires HasBlocks(sb) && PlanFits(sb, plan) && PointsAt(sb, plan, inode)
    requires HoldsAll(q, FileWrites(sb, plan)) && bi < Base(Nindir(sb), 4)
    ensures var block := Build(sb, plan, Nindir(sb), 0, bi);
            LeafAt(q, sb, inode, Nindir(sb), bi) == block.Root() && Stored(q, sb, block)
  {
    hide Build, WritesOfAll, Stored, Follow, Solid, AddressesFit, Base, Digits, Value, HoldsAll;
    var n := Nindir(sb);
    var ts := Forest(sb, plan);
    PathOfIndex(n, bi);
    var path := PathOf(n, bi);
    if bi < NDADDR {
      assert ts[bi] in ts;
      ForestStored(q, sb, ts, ts[bi]);
      LeafDirect(q, sb, inode, n, bi);
    } else {
      var level := path.level;
      PathLevel(n, bi);
      var t := ts[UFS_NDADDR + level - 1];
      assert t in ts;
      ForestStored(q, sb, ts, t);
      BuildShaped(sb, plan, n, level, Base(n, level));
      FollowStored(q, sb, t, n, path.digits);
      NodeAtBuild(sb, plan, n, Base(n, level), path.digits);
    }
  }

  lemma PathLevel(n: nat, bi: nat)
    requires NDADDR <= bi < Base(n, 4)
    ensures 1 <= PathOf(n, bi).level <= 3
  {
    hide Digits;
  }

  /** In such an image every block of the file reads as its content, or as zeros where it is a hole. */
  lemma LaidBlock(q: Buffer, sb: Superblock, plan: Plan, inode: Inode, bi: nat, at: nat, len: nat)
    requires HasBlocks(sb) && PlanFits(sb, plan) && PointsAt(sb, plan, inode) && HoldsAll(q, FileWrites(sb, plan))
    requires at == bi * sb.bsize && at < inode.size && len == Min(sb.bsize, inode.size - at)
    ensures inode.size == |plan.content|
    ensures FileBytes(q, sb, inode)[at..at + len] == if bi in plan.holes then Zeros(len) else plan.content[at..at + len]
  {
    hide FileBytes, LeafAt, Base, PlanFits, FileWrites, HoldsAll, Forest, BlockBytes, FragByte, Build, Solid, Chunk;
    var n := Nindir(sb);
    FileBlock(q, sb, inode, bi, at, len);
    OneBlock(sb, plan, n, bi);
    SolidChunk(sb, plan, bi, at);
    if bi < Base(n, 4) {
      LaidLeaf(q, sb, plan, inode, bi);
      var block := Build(sb, plan, n, 0, bi);
      if block.Leaf? {
        AddressNonZero(sb, plan, 0, bi);
        PresentBlock(q, sb, block.addr, block.data);
      } else {
        HoleReads(q, sb, len);
      }
    } else {
      HolePastReach(q, sb, inode, bi);
      OutOfReach(sb, plan, bi);
    }
  }

  lemma SolidChunk(sb: Superblock, plan: Plan, b: nat, at: nat)
    requires HasBlocks(sb) && at == b * sb.bsize && at < |plan.content|
    ensures Solid(sb, plan, b) <==> b !in plan.holes
    ensures Chunk(sb, plan, b) == plan.content[at..at + Min(sb.bsize, |plan.content| - at)]
  {
  }

  lemma AddressNonZero(sb: Superblock, plan: Plan, h: nat, lo: nat)
    requires HasBlocks(sb) && PlanFits(sb, plan)
    ensures plan.alloc(h, lo) != 0
  {
    hide Base, Solid;
  }

  lemma OutOfReach(sb: Superblock, plan: Plan, b: nat)
    requires HasBlocks(sb) && PlanFits(sb, plan) && b >= Base(Nindir(sb), 4)
    ensures !Solid(sb, plan, b)
  {
    hide Base, Solid;
  }

  /** Bytes stored at a fragment are the bytes its block reads as. */
  lemma PresentBlock(q: Buffer, sb: Superblock, addr: U64, data: seq<Byte>)
    requires HasBlocks(sb) && addr != 0 && |data| <= sb.bsize
    requires Stored(q, sb, Leaf(addr, data))
    ensures BlockBytes(q, sb, addr)[..|data|] == data
  {
    hide FragByte, BlockBytes;
    ClipPrefix(q, sb, addr, |data|);
    var block := Clip(q, FragByte(sb, addr), |data|);
    assert block == data;
    assert block + Zeros(0) == block;
  }

  /** A tree of height 0 is one block: a hole exactly when the block has no content of its own. */
  lemma OneBlock(sb: Superblock, plan: Plan, n: nat, b: nat)
    requires HasBlocks(sb)
    ensures Build(sb, plan, n, 0, b) ==
              if Solid(sb, plan, b) then Leaf(plan.alloc(0, b), Chunk(sb, plan, b)) else Hole
  {
    hide Chunk;
    assert Pow(n, 0) == 1;
  }

  lemma LaidByte(q: Buffer, sb: Superblock, plan: Plan, inode: Inode, j: nat)
    requires HasBlocks(sb) && PlanFits(sb, plan) && PointsAt(sb, plan, inode) && HoldsAll(q, FileWrites(sb, plan))
    requires j < inode.size
    ensures inode.size == |plan.content| && FileBytes(q, sb, inode)[j] == Holed(sb, plan)[j]
  {
    hide FileBytes, PlanFits, PointsAt, FileWrites, HoldsAll;
    var bi, r := DivMod(j, sb.bsize);
    var at := j - r;
    var len := Min(sb.bsize, inode.size - at);
    var a := FileBytes(q, sb, inode);
    LaidBlock(q, sb, plan, inode, bi, at, len);
    assert a[at..at + len][r] == a[j];
    assert plan.content[at..at + len][r] == plan.content[j];
  }

  /** The content of a laid-out file is the planned content with its holes zeroed. */
  lemma LaidContent(q: Buffer, sb: Superblock, plan: Plan, inode: Inode)
    requires HasBlocks(sb) && PlanFits(sb, plan) && PointsAt(sb, plan, inode) && HoldsAll(q, FileWrites(sb, plan))
    requires |plan.content| <= |q|
    ensures FileContent(q, sb, inode) == Success(Holed(sb, plan))
  {
    hide FileBytes, PlanFits, Forest, FileWrites, HoldsAll, Holed;
    var a, b := FileBytes(q, sb, inode), Holed(sb, plan);
    forall j | 0 <= j < inode.size
      ensures a[j] == b[j]
    {
      LaidByte(q, sb, plan, inode, j);
    }
    assert |a| == |b| && a == b;
  }

  // ── with its inode ─────────────────────────────────────────────────────────

  ghost function InodeRecord(sb: Superblock, inode: Inode): seq<Write> {
    DinodeWrites(sb.version, sb.endian, inode.mode, inode.nlink, inode.size, inode.direct, inode.indirect)
  }

  /** The writes of a dinode, at the place its number names. */
  ghost function InodeWrites(sb: Superblock, ino: nat, inode: Inode): seq<Write>
    requires Addressable(sb)
  {
    Moved(InodeRecord(sb, inode), InodeOffset(sb, ino))
  }

  /** A dinode written at its place is the inode read from there. */
  lemma WrittenInode(q: Buffer, sb: Superblock, ino: U64, inode: Inode)
    requires Addressable(sb) && ino < sb.ipg * sb.ncg && InodeOffset(sb, ino) + sb.InodeSize() <= |q|
    requires forall x | x in inode.direct || x in inode.indirect :: x < Pow256(sb.version.PtrSize())
    requires HoldsAll(q, InodeWrites(sb, ino, inode))
    ensures var r := ReadInode(q, sb, ino);
            && r.Success?
            && r.value.mode == inode.mode && r.value.fileType == FromMode(inode.mode)
            && r.value.nlink == inode.nlink && r.value.size == inode.size
            && r.value.direct == inode.direct && r.value.indirect == inode.indirect
  {
    hide ReadInode, InodeOffset, ParseDinode, DinodeWrites, FromMode, Pow256, HoldsAll;
    ReadInodeExact(q, sb, ino);
    var at := InodeOffset(sb, ino);
    InodeRecordFits(sb, inode);
    HeldInside(q, InodeRecord(sb, inode), at, at + sb.InodeSize());
    DinodeFieldsReadBack(q[at..at + sb.InodeSize()], sb.version, sb.endian, sb.maxsymlinklen, inode.mode, inode.nlink,
                         inode.size, inode.direct, inode.indirect);
  }

  lemma InodeRecordFits(sb: Superblock, inode: Inode)
    ensures ShapeOf(sb.version).len == sb.InodeSize()
    ensures forall w | w in InodeRecord(sb, inode) :: w.End() <= sb.InodeSize()
  {
    hide Encode, Serialise;
  }

  /** Everything written for one file: its trees and its dinode. */
  ghost function AllWrites(sb: Superblock, plan: Plan, ino: nat, inode: Inode): seq<Write>
    requires HasBlocks(sb) && Addressable(sb)
  {
    FileWrites(sb, plan) + InodeWrites(sb, ino, inode)
  }

  /**
   * Write, then read: for any content, any hole blocks and any addresses such that nothing written overlaps, laying
   * the data blocks, the pointer blocks and the dinode into any image and reading the file back by its inode number
   * gives the content with its holes zeroed, in either byte order and with either pointer width.
   */
  lemma WriteThenRead(p: Buffer, sb: Superblock, plan: Plan, ino: U64, inode: Inode)
    requires HasBlocks(sb) && PlanFits(sb, plan) && PointsAt(sb, plan, inode) && |plan.content| <= |p|
    requires Addressable(sb) && ino < sb.ipg * sb.ncg && InodeOffset(sb, ino) + sb.InodeSize() <= |p|
    requires Fits(AllWrites(sb, plan, ino, inode), |p|)
    requires Disjoint(AllWrites(sb, plan, ino, inode))
    ensures FileAt(Overlay(p, AllWrites(sb, plan, ino, inode)), sb, ino) == Success(Holed(sb, plan))
  {
    hide ReadInode, FileContent, PlanFits, FileWrites, InodeWrites, HoldsAll, Holed, Overlay, Forest, InodeOffset, Fits,
         Disjoint;
    var q := Overlay(p, AllWrites(sb, plan, ino, inode));
    OverlayHolds(p, AllWrites(sb, plan, ino, inode));
    HoldsBoth(q, FileWrites(sb, plan), InodeWrites(sb, ino, inode));
    RootsFit(sb, plan, inode);
    WrittenInode(q, sb, ino, inode);
    LaidContent(q, sb, plan, ReadInode(q, sb, ino).value);
  }

  lemma RootsFit(sb: Superblock, plan: Plan, inode: Inode)
    requires HasBlocks(sb) && PlanFits(sb, plan) && PointsAt(sb, plan, inode)
    ensures forall x | x in inode.direct || x in inode.indirect :: x < Pow256(sb.version.PtrSize())
  {
    hide Build, Pow256, Solid, Base;
    var ts, n := Forest(sb, plan), Nindir(sb);
    forall i | 0 <= i < UFS_NDADDR
      ensures inode.direct[i] < Pow256(sb.version.PtrSize())
    {
      BuildShaped(sb, plan, n, 0, i);
    }
    forall i | 0 <= i < UFS_NIADDR
      ensures inode.indirect[i] < Pow256(sb.version.PtrSize())
    {
      BuildShaped(sb, plan, n, i + 1, Base(n, i + 1));
    }
  }
}
