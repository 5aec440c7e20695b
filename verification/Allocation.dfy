/**
 * A place for every block of a file: whatever its content and holes, a large enough image has a layout that meets what
 * writing and reading back needs (core/src/file.rs, core/tests/file_indirect.rs).
 */
module Allocation {
  import opened Bytes
  import opened Superblocks
  import opened Images
  import opened Inodes
  import opened Radix
  import opened BlockMap
  import opened Layout

  // ── spots ──────────────────────────────────────────────────────────────────

  /** Fragments that one block takes. */
  function Stride(sb: Superblock): nat
    requires HasBlocks(sb)
  {
    DivCeil(sb.bsize, sb.fsize)
  }

  /** A run of `count` spots of one block each, from fragment `start` on. */
  datatype Run = Run(start: nat, count: nat)

  ghost function SpotFrag(sb: Superblock, run: Run, key: nat): nat
    requires HasBlocks(sb)
  {
    run.start + Min(key, run.count) * Stride(sb)
  }

  ghost function Spot(sb: Superblock, run: Run, key: nat): nat
    requires HasBlocks(sb)
  {
    FragByte(sb, SpotFrag(sb, run, key))
  }

  lemma StrideCovers(sb: Superblock)
    requires HasBlocks(sb)
    ensures Stride(sb) > 0 && Stride(sb) * sb.fsize >= sb.bsize
  {
    BlockStarts(sb.bsize, sb.fsize, DivCeil(sb.bsize, sb.fsize));
  }

  lemma SpotsAscend(sb: Superblock, run: Run, a: nat, b: nat)
    requires HasBlocks(sb) && a <= b
    ensures Spot(sb, run, a) <= Spot(sb, run, b)
  {
    hide Stride;
    MulBound(Min(a, run.count), Stride(sb), Min(b, run.count), Stride(sb));
    MulBound(SpotFrag(sb, run, a), sb.fsize, SpotFrag(sb, run, b), sb.fsize);
  }

  /** A block fits between one spot and the next. */
  lemma SpotHolds(sb: Superblock, run: Run, key: nat)
    requires HasBlocks(sb) && key < run.count
    ensures Spot(sb, run, key) + sb.bsize <= Spot(sb, run, key + 1)
  {
    hide Stride;
    StrideCovers(sb);
    var s := Stride(sb);
    assert (key + 1) * s == key * s + s;
    var a: nat := SpotFrag(sb, run, key);
    assert (a + s) * sb.fsize == a * sb.fsize + s * sb.fsize;
  }

  // ── the allocator ──────────────────────────────────────────────────────────

  /** Preorder: a pointer block of height `h` over blocks from `lo` comes before everything below it. */
  function Key(h: nat, lo: nat): nat
    requires h <= 3
  {
    4 * lo + 3 - h
  }

  ghost function SpotOf(sb: Superblock, run: Run, h: nat, lo: nat): nat
    requires HasBlocks(sb)
  {
    if h <= 3 then SpotFrag(sb, run, Key(h, lo)) else run.start
  }

  /** Every spot's address fits a pointer. */
  ghost predicate Room(sb: Superblock, run: Run)
    requires HasBlocks(sb)
  {
    0 < run.start && SpotFrag(sb, run, run.count) < Pow256(sb.version.PtrSize())
  }

  lemma SpotFits(sb: Superblock, run: Run, h: nat, lo: nat)
    requires HasBlocks(sb) && Room(sb, run)
    ensures 0 < SpotOf(sb, run, h, lo) < Pow256(sb.version.PtrSize()) <= 0x1_0000_0000_0000_0000
  {
    hide Stride, Pow256;
    Pow256Values();
    if h <= 3 {
      MulBound(Min(Key(h, lo), run.count), Stride(sb), run.count, Stride(sb));
    } else {
      MulBound(0, Stride(sb), run.count, Stride(sb));
    }
  }

  /** Four spots for each block of the content. */
  ghost function RunFor(sb: Superblock, content: Buffer, start: nat): Run
    requires HasBlocks(sb)
  {
    Run(start, 4 * DivCeil(|content|, sb.bsize))
  }

  ghost function SpotAddress(sb: Superblock, run: Run, h: nat, lo: nat): U64
    requires HasBlocks(sb) && Room(sb, run)
  {
    SpotFits(sb, run, h, lo);
    SpotOf(sb, run, h, lo)
  }

  ghost function Alloc(sb: Superblock, run: Run): (nat, nat) -> U64
    requires HasBlocks(sb) && Room(sb, run)
  {
    (h: nat, lo: nat) => SpotAddress(sb, run, h, lo)
  }

  ghost function PlanFor(sb: Superblock, content: Buffer, holes: set<nat>, start: nat): Plan
    requires HasBlocks(sb) && Room(sb, RunFor(sb, content, start))
  {
    Plan(content, holes, Alloc(sb, RunFor(sb, content, start)))
  }

  // ── every tree is laid out in order ────────────────────────────────────────

  ghost predicate Planned(sb: Superblock, plan: Plan, run: Run)
    requires HasBlocks(sb)
  {
    && Room(sb, run) && plan.alloc == Alloc(sb, run)
    && run.count == 4 * DivCeil(|plan.content|, sb.bsize)
  }

  /** A tree that holds any content starts within the content. */
  lemma StartsInside(sb: Superblock, plan: Plan, run: Run, lo: nat, hi: nat)
    requires HasBlocks(sb) && Planned(sb, plan, run) && AnySolid(sb, plan, lo, hi)
    ensures 4 * lo + 4 <= run.count
  {
    hide DivCeil;
    var b: nat :| lo <= b < hi && Solid(sb, plan, b);
    BlockStarts(|plan.content|, sb.bsize, b);
  }

  /** One block's write stays between its spot and the next. */
  lemma OneSpot(sb: Superblock, plan: Plan, run: Run, h: nat, lo: nat, bytes: seq<Byte>)
    requires HasBlocks(sb) && Planned(sb, plan, run) && h <= 3 && Key(h, lo) < run.count && |bytes| <= sb.bsize
    ensures InOrder([Write(FragByte(sb, plan.alloc(h, lo)), bytes)],
                    Spot(sb, run, Key(h, lo)), Spot(sb, run, Key(h, lo) + 1))
  {
    hide SpotFrag, Room;
    SpotHolds(sb, run, Key(h, lo));
    assert plan.alloc(h, lo) == SpotAddress(sb, run, h, lo) == SpotFrag(sb, run, Key(h, lo));
  }

  lemma {:induction false} TreeInOrder(sb: Superblock, plan: Plan, run: Run, n: nat, h: nat, lo: nat)
    requires HasBlocks(sb) && Planned(sb, plan, run) && h <= 3 && sb.version.Span(n) <= sb.bsize
    ensures InOrder(Writes(sb, Build(sb, plan, n, h, lo)), Spot(sb, run, Key(h, lo)), Spot(sb, run, 4 * (lo + Pow(n, h))))
    decreases h, 1, 0
  {
    hide InOrder, Pow, Spot, Planned, Alloc, AnySolid, Chunk, Serialise;
    var t := Build(sb, plan, n, h, lo);
    if AnySolid(sb, plan, lo, lo + Pow(n, h)) {
      StartsInside(sb, plan, run, lo, lo + Pow(n, h));
      if h == 0 {
        OneSpot(sb, plan, run, 0, lo, Chunk(sb, plan, lo));
        PowZero(n);
      } else {
        PointerBlockInOrder(sb, plan, run, n, h, lo);
      }
    } else {
      NoWrites(Spot(sb, run, Key(h, lo)), Spot(sb, run, 4 * (lo + Pow(n, h))));
    }
  }

  lemma PowZero(n: nat)
    ensures Pow(n, 0) == 1
  {
  }

  lemma NoWrites(lo: nat, hi: nat)
    ensures InOrder([], lo, hi)
  {
  }

  lemma {:induction false} PointerBlockInOrder(sb: Superblock, plan: Plan, run: Run, n: nat, h: nat, lo: nat)
    requires HasBlocks(sb) && Planned(sb, plan, run) && 0 < h <= 3 && sb.version.Span(n) <= sb.bsize
    requires AnySolid(sb, plan, lo, lo + Pow(n, h)) && 4 * lo + 4 <= run.count
    ensures InOrder(Writes(sb, Build(sb, plan, n, h, lo)), Spot(sb, run, Key(h, lo)), Spot(sb, run, 4 * (lo + Pow(n, h))))
    decreases h, 0, 1
  {
    hide InOrder, Spot, Planned, Alloc, AnySolid, Serialise, Pow;
    var t := Build(sb, plan, n, h, lo);
    var bytes := Serialise(sb.version, sb.endian, Roots(t.kids));
    var here, below, end := Spot(sb, run, Key(h, lo)), Spot(sb, run, Key(h, lo) + 1), Spot(sb, run, 4 * (lo + Pow(n, h)));
    OneSpot(sb, plan, run, h, lo, bytes);
    PowOfSolid(sb, plan, n, h, lo);
    KidsInOrder(sb, plan, run, n, h, lo, 0, lo);
    assert t.kids[0..] == t.kids;
    SpotsAscend(sb, run, Key(h, lo), Key(h, lo) + 1);
    SpotsAscend(sb, run, Key(h, lo) + 1, 4 * (lo + Pow(n, h)));
    InOrderAppend([Write(FragByte(sb, t.addr), bytes)], WritesOfAll(sb, t.kids), here, below, end);
  }

  lemma PowOfSolid(sb: Superblock, plan: Plan, n: nat, h: nat, lo: nat)
    requires HasBlocks(sb) && AnySolid(sb, plan, lo, lo + Pow(n, h))
    ensures Pow(n, h) > 0
  {
    hide Pow, Solid;
  }

  /** The children from the `k`-th on; `at` is where that one starts. */
  lemma {:induction false} KidsInOrder(sb: Superblock, plan: Plan, run: Run, n: nat, h: nat, lo: nat, k: nat, at: nat)
    requires HasBlocks(sb) && Planned(sb, plan, run) && 0 < h <= 3 && sb.version.Span(n) <= sb.bsize
    requires k <= n && at == lo + k * Pow(n, h - 1) && Pow(n, h) > 0
    ensures var kids := Tabulate(BuildKid(sb, plan, n, h, lo), n);
            InOrder(WritesOfAll(sb, kids[k..]), Spot(sb, run, Key(h - 1, at)), Spot(sb, run, 4 * (lo + Pow(n, h))))
    decreases h, 0, 0, n - k
  {
    hide InOrder, Spot, Planned, Alloc, Writes, Build, Pow;
    var kids, m := Tabulate(BuildKid(sb, plan, n, h, lo), n), Pow(n, h - 1);
    var end := Spot(sb, run, 4 * (lo + Pow(n, h)));
    PowStep(n, h);
    ProductPositive(n, m);
    if k == n {
      NoWrites(Spot(sb, run, Key(h - 1, at)), end);
    } else {
      var next := at + m;
      NextKid(lo, k, m, at);
      assert kids[k..][0] == kids[k] == Build(sb, plan, n, h - 1, at);
      assert kids[k..][1..] == kids[k + 1..];
      TreeInOrder(sb, plan, run, n, h - 1, at);
      KidsInOrder(sb, plan, run, n, h, lo, k + 1, next);
      SlotEnd(k, n, m);
      SpotsAscend(sb, run, 4 * next, Key(h - 1, next));
      SpotsAscend(sb, run, 4 * next, 4 * (lo + Pow(n, h)));
      InOrderWiden(WritesOfAll(sb, kids[k + 1..]), Spot(sb, run, Key(h - 1, next)), end, Spot(sb, run, 4 * next), end);
      SpotsAscend(sb, run, Key(h - 1, at), 4 * next);
      InOrderAppend(Writes(sb, kids[k]), WritesOfAll(sb, kids[k + 1..]), Spot(sb, run, Key(h - 1, at)),
                    Spot(sb, run, 4 * next), end);
    }
  }

  lemma PowStep(n: nat, h: nat)
    requires h > 0
    ensures Pow(n, h) == n * Pow(n, h - 1)
  {
  }

  lemma NextKid(lo: nat, k: nat, m: nat, at: nat)
    requires at == lo + k * m
    ensures at + m == lo + (k + 1) * m
  {
    assert (k + 1) * m == k * m + m;
  }

  // ── the whole file ─────────────────────────────────────────────────────────

  /** First block of the `i`-th tree of a file. */
  function TreeStart(n: nat, i: nat): nat
    requires i <= 15
  {
    if i < UFS_NDADDR then i else Base(n, i - 11)
  }

  function TreeHeight(i: nat): nat
    requires i < 15
  {
    if i < UFS_NDADDR then 0 else i - 11
  }

  lemma NextTree(n: nat, i: nat)
    requires i < 15
    ensures TreeHeight(i) <= 3 && TreeStart(n, i) + Pow(n, TreeHeight(i)) == TreeStart(n, i + 1)
  {
    PowValues(n);
  }

  lemma TreesStay(n: nat, i: nat)
    requires i <= 15
    ensures TreeStart(n, i) <= Base(n, 4)
  {
    ProductPositive(n, n);
    ProductPositive(n * n, n);
  }

  /** The trees from the `i`-th on. */
  lemma {:induction false} TreesInOrder(sb: Superblock, plan: Plan, run: Run, i: nat)
    requires HasBlocks(sb) && Planned(sb, plan, run) && sb.version.Span(Nindir(sb)) <= sb.bsize && i <= 15
    ensures InOrder(WritesOfAll(sb, Forest(sb, plan)[i..]), Spot(sb, run, 4 * TreeStart(Nindir(sb), i)),
                    Spot(sb, run, 4 * Base(Nindir(sb), 4)))
    decreases 15 - i
  {
    hide InOrder, Spot, Planned, Writes, Build, Pow, Base;
    var ts, n := Forest(sb, plan), Nindir(sb);
    var here, end := 4 * TreeStart(n, i), Spot(sb, run, 4 * Base(n, 4));
    if i == 15 {
      NoWrites(Spot(sb, run, here), end);
    } else {
      var h, lo, next := TreeHeight(i), TreeStart(n, i), 4 * TreeStart(n, i + 1);
      NextTree(n, i);
      assert ts[i] == ForestTree(sb, plan)(i) == Build(sb, plan, n, h, lo);
      assert ts[i..][0] == ts[i] && ts[i..][1..] == ts[i + 1..];
      TreeInOrder(sb, plan, run, n, h, lo);
      TreesInOrder(sb, plan, run, i + 1);
      TreesStay(n, i + 1);
      SpotsAscend(sb, run, here, Key(h, lo));
      SpotsAscend(sb, run, here, next);
      SpotsAscend(sb, run, next, 4 * Base(n, 4));
      InOrderWiden(Writes(sb, ts[i]), Spot(sb, run, Key(h, lo)), Spot(sb, run, next), Spot(sb, run, here),
                   Spot(sb, run, next));
      InOrderAppend(Writes(sb, ts[i]), WritesOfAll(sb, ts[i + 1..]), Spot(sb, run, here), Spot(sb, run, next), end);
    }
  }

  /** All of a file's blocks lie between the first spot and the last. */
  lemma FileInOrder(sb: Superblock, plan: Plan, run: Run)
    requires HasBlocks(sb) && Planned(sb, plan, run) && sb.version.Span(Nindir(sb)) <= sb.bsize
    ensures InOrder(FileWrites(sb, plan), Spot(sb, run, 0), Spot(sb, run, run.count))
  {
    hide InOrder, Planned, WritesOfAll, Forest, Stride, Base;
    TreesInOrder(sb, plan, run, 0);
    assert Forest(sb, plan)[0..] == Forest(sb, plan);
    var top := 4 * Base(Nindir(sb), 4);
    SpotsAscend(sb, run, Min(top, run.count), run.count);
    assert Spot(sb, run, top) == Spot(sb, run, Min(top, run.count));
    InOrderWiden(FileWrites(sb, plan), Spot(sb, run, 0), Spot(sb, run, top), Spot(sb, run, 0), Spot(sb, run, run.count));
  }

  /** An inode whose pointers are the roots of the layout. */
  ghost function InodeFor(sb: Superblock, plan: Plan, mode: U16, nlink: U16): (inode: Inode)
    requires HasBlocks(sb)
    ensures PointsAt(sb, plan, inode) && inode.mode == mode && inode.nlink == nlink
  {
    var ts := Forest(sb, plan);
    var roots := Roots(ts);
    Inode(sb.version, mode, FromMode(mode), nlink, |plan.content|, roots[..UFS_NDADDR], roots[UFS_NDADDR..], None)
  }

  /** What a layout from fragment `start` on asks of the filesystem: pointers that fit, a map that reaches. */
  ghost predicate CanHold(sb: Superblock, content: Buffer, holes: set<nat>, start: nat)
    requires HasBlocks(sb)
  {
    && Room(sb, RunFor(sb, content, start))
    && sb.version.Span(Nindir(sb)) <= sb.bsize
    && forall b: nat | b * sb.bsize < |content| && b !in holes :: b < Base(Nindir(sb), 4)
  }

  lemma PlanIsFit(sb: Superblock, content: Buffer, holes: set<nat>, start: nat)
    requires HasBlocks(sb) && CanHold(sb, content, holes, start)
    ensures var plan := PlanFor(sb, content, holes, start);
            PlanFits(sb, plan) && Planned(sb, plan, RunFor(sb, content, start))
  {
    hide Base, SpotOf, Pow256, Room;
    var plan, run := PlanFor(sb, content, holes, start), RunFor(sb, content, start);
    forall h: nat, lo: nat
      ensures 0 < plan.alloc(h, lo) < Pow256(sb.version.PtrSize())
    {
      SpotFits(sb, run, h, lo);
      assert plan.alloc(h, lo) == SpotAddress(sb, run, h, lo);
    }
  }

  /** The content fits before the last spot. */
  lemma ContentFits(sb: Superblock, content: Buffer, start: nat)
    requires HasBlocks(sb)
    ensures var run := RunFor(sb, content, start); |content| <= Spot(sb, run, run.count)
  {
    hide DivCeil;
    var n, s := DivCeil(|content|, sb.bsize), Stride(sb);
    BlockStarts(|content|, sb.bsize, n);
    StrideCovers(sb);
    MulBound(n, sb.bsize, n, s * sb.fsize);
    var run := RunFor(sb, content, start);
    assert run.count * s == 4 * (n * s);
    assert SpotFrag(sb, run, run.count) == start + 4 * (n * s);
    MulBound(n * s, sb.fsize, start + 4 * (n * s), sb.fsize);
    assert n * (s * sb.fsize) == (n * s) * sb.fsize;
  }

  /**
   * For any content and holes that the filesystem can hold, an image with room from fragment `start` on, past the
   * inode's own record, can be written so that the file reads back: nothing in the layout overlaps.
   */
  lemma LayoutExists(p: Buffer, sb: Superblock, content: Buffer, holes: set<nat>, start: nat, ino: U64, mode: U16,
                     nlink: U16)
    returns (plan: Plan, inode: Inode)
    requires HasBlocks(sb) && CanHold(sb, content, holes, start)
    requires Addressable(sb) && ino < sb.ipg * sb.ncg
    requires InodeOffset(sb, ino) + sb.InodeSize() <= FragByte(sb, start)
    requires var run := RunFor(sb, content, start); Spot(sb, run, run.count) <= |p|
    ensures plan.content == content && plan.holes == holes && PlanFits(sb, plan) && PointsAt(sb, plan, inode)
    ensures inode.mode == mode && inode.nlink == nlink
    ensures Fits(AllWrites(sb, plan, ino, inode), |p|) && Disjoint(AllWrites(sb, plan, ino, inode))
    ensures FileAt(Overlay(p, AllWrites(sb, plan, ino, inode)), sb, ino) == Success(Holed(sb, plan))
  {
    hide InOrder, InodeWrites, FileWrites, InodeOffset, PlanFits, PointsAt, CanHold, Planned, Room, Forest, Holed,
         Overlay, FileAt, Stride;
    SpanFits(sb, content, holes, start);
    plan := PlanFor(sb, content, holes, start);
    inode := InodeFor(sb, plan, mode, nlink);
    var run := RunFor(sb, content, start);
    PlanIsFit(sb, content, holes, start);
    FileInOrder(sb, plan, run);
    InodeWritesInOrder(sb, ino, inode);
    ContentFits(sb, content, start);
    var at := InodeOffset(sb, ino);
    assert Spot(sb, run, 0) == FragByte(sb, start);
    SpotsAscend(sb, run, 0, run.count);
    InOrderWiden(InodeWrites(sb, ino, inode), at, at + sb.InodeSize(), 0, Spot(sb, run, 0));
    ApartDisjoint(FileWrites(sb, plan), InodeWrites(sb, ino, inode), 0, Spot(sb, run, 0), Spot(sb, run, run.count));
    WriteThenRead(p, sb, plan, ino, inode);
  }

  lemma SpanFits(sb: Superblock, content: Buffer, holes: set<nat>, start: nat)
    requires HasBlocks(sb) && CanHold(sb, content, holes, start)
    ensures sb.version.Span(Nindir(sb)) <= sb.bsize && Room(sb, RunFor(sb, content, start))
  {
    hide Room;
  }

  lemma InodeWritesInOrder(sb: Superblock, ino: nat, inode: Inode)
    requires Addressable(sb)
    ensures InOrder(InodeWrites(sb, ino, inode), InodeOffset(sb, ino), InodeOffset(sb, ino) + sb.InodeSize())
  {
    hide InOrder, InodeOffset, DinodeWrites, Moved;
    InodeRecordFits(sb, inode);
    DinodeInOrder(sb.version, sb.endian, inode.mode, inode.nlink, inode.size, inode.direct, inode.indirect);
    InOrderMoved(InodeRecord(sb, inode), 0, sb.InodeSize(), InodeOffset(sb, ino));
  }

  // ── an instance ────────────────────────────────────────────────────────────

  /** 4096-byte blocks of one fragment, 512 pointers each. */
  const ROOMY: Superblock := Superblock(Ufs2, Little, 24, 32, 40, 1, 4096, 4096, 512, 128, 65536, 120)

  /** A file of forty blocks, so with a single-indirect tree, has such a layout in any image of 2 MiB or more. */
  lemma IndirectFileExists(p: Buffer, content: Buffer) returns (plan: Plan, inode: Inode)
    requires |content| == 40 * 4096 && |p| >= 0x20_0000
    ensures plan.content == content && plan.holes == {} && inode.indirect[0] != 0
    ensures Fits(AllWrites(ROOMY, plan, 3, inode), |p|) && Disjoint(AllWrites(ROOMY, plan, 3, inode))
    ensures FileAt(Overlay(p, AllWrites(ROOMY, plan, 3, inode)), ROOMY, 3) == Success(content)
  {
    hide FileAt, Overlay, AllWrites, Build, AnySolid, Fits, Disjoint;
    Pow256Values();
    assert InodeOffset(ROOMY, 3) == 164608;
    assert Base(512, 4) > 40;
    plan, inode := LayoutExists(p, ROOMY, content, {}, 100, 3, 0x81A4, 1);
    assert Holed(ROOMY, plan) == content;
    IndirectRoot(plan);
  }

  /** The single-indirect tree of such a file is not a hole. */
  lemma IndirectRoot(plan: Plan)
    requires |plan.content| == 40 * 4096 && plan.holes == {} && AddressesFit(ROOMY, plan)
    ensures Forest(ROOMY, plan)[12].Root() != 0
  {
    PowValues(512);
    assert Solid(ROOMY, plan, 12);
    assert AnySolid(ROOMY, plan, 12, 12 + Pow(512, 1));
    assert Nindir(ROOMY) == 512 && Base(512, 1) == 12;
    assert Forest(ROOMY, plan)[12] == ForestTree(ROOMY, plan)(12) == Build(ROOMY, plan, 512, 1, 12);
  }
}
