/**
 * Directories read whole: a listing covers the direct blocks only (core/src/dir.rs), so what it leaves out decides
 * whether the orphan sweep keeps its promise (forensic/src/lib.rs).
 */
module Contents {
  import opened Bytes
  import opened Gathering
  import opened Superblocks
  import opened Inodes
  import opened BlockMap
  import opened Directory
  import opened Listing
  import opened Traversal
  import opened Completeness
  import opened Audit

  // ── one directory ──────────────────────────────────────────────────────────

  ghost function Chunks(p: Buffer, sb: Superblock, inode: Inode): nat -> seq<DirEntry>
    requires HasBlocks(sb) && inode.size <= |p|
  {
    ChunkSlots(sb.endian, FileBytes(p, sb, inode), sb.bsize)
  }

  /** Every slot of a directory's whole content, block by block. */
  ghost function WholeSlots(p: Buffer, sb: Superblock, inode: Inode): seq<DirEntry>
    requires HasBlocks(sb) && inode.size <= |p|
  {
    Gather(Chunks(p, sb, inode), DivCeil(inode.size, sb.bsize))
  }

  /** The directory can be read, and the direct blocks it uses lie in the partition. */
  ghost predicate Intact(p: Buffer, sb: Superblock, inode: Inode)
    requires HasBlocks(sb)
  {
    inode.size <= |p| && DirectBlocksPresent(p, sb, inode)
  }

  /** No slot lies past the direct blocks. */
  ghost predicate DirectOnly(p: Buffer, sb: Superblock, inode: Inode)
    requires HasBlocks(sb) && inode.size <= |p|
  {
    forall k: nat | UFS_NDADDR <= k < DivCeil(inode.size, sb.bsize) :: Chunks(p, sb, inode)(k) == []
  }

  lemma PastLastChunk(p: Buffer, sb: Superblock, inode: Inode, k: nat)
    requires HasBlocks(sb) && inode.size <= |p| && k >= DivCeil(inode.size, sb.bsize)
    ensures Chunks(p, sb, inode)(k) == []
  {
    hide FileBytes, Walk, DivCeil;
    BlockStarts(inode.size, sb.bsize, k);
    WalkNothing(sb.endian, []);
    assert FileBytes(p, sb, inode)[inode.size..inode.size] == [];
  }

  /** Rows past the `k`-th add nothing exactly when each of them is empty. */
  lemma GatherStopsIff<T>(f: nat -> seq<T>, k: nat, n: nat)
    requires k <= n
    ensures Gather(f, n) == Gather(f, k) <==> forall j: nat | k <= j < n :: f(j) == []
  {
    hide Gather;
    if forall j: nat | k <= j < n :: f(j) == [] {
      GatherNoMore(f, k, n);
    }
    if Gather(f, n) == Gather(f, k) {
      forall j: nat | k <= j < n
        ensures f(j) == []
      {
        GatherPrefix(f, k, j);
        GatherRow(f, j, n);
      }
    }
  }

  /** A listing is the whole directory exactly when no slot lies past its direct blocks. */
  lemma ListingIsWholeIff(p: Buffer, sb: Superblock, inode: Inode)
    requires HasBlocks(sb) && Intact(p, sb, inode)
    ensures DirSlots(p, sb, inode) == WholeSlots(p, sb, inode) <==> DirectOnly(p, sb, inode)
    ensures forall x | x in DirSlots(p, sb, inode) :: x in WholeSlots(p, sb, inode)
  {
    hide Gather, FileBytes, ChunkSlots, DivCeil, DirSlots, DirectBlocksPresent;
    ListingIsContent(p, sb, inode);
    var f, n := Chunks(p, sb, inode), DivCeil(inode.size, sb.bsize);
    if n <= UFS_NDADDR {
      forall j: nat | n <= j < UFS_NDADDR
        ensures f(j) == []
      {
        PastLastChunk(p, sb, inode, j);
      }
      GatherNoMore(f, n, UFS_NDADDR);
    } else {
      GatherStopsIff(f, UFS_NDADDR, n);
      GatherPrefix(f, UFS_NDADDR, n);
    }
  }

  /** A directory of at most twelve blocks is always listed whole. */
  lemma TwelveBlocksSuffice(p: Buffer, sb: Superblock, inode: Inode)
    requires HasBlocks(sb) && Intact(p, sb, inode) && inode.size <= UFS_NDADDR * sb.bsize
    ensures DirectOnly(p, sb, inode) && DirSlots(p, sb, inode) == WholeSlots(p, sb, inode)
  {
    hide DivCeil, DirSlots, WholeSlots, DirectBlocksPresent, Chunks;
    BlockStarts(inode.size, sb.bsize, UFS_NDADDR);
    ListingIsWholeIff(p, sb, inode);
  }

  // ── the graph of whole directories ─────────────────────────────────────────

  ghost function ContentGraph(p: Buffer, sb: Superblock): Graph
    requires HasBlocks(sb)
  {
    (d: U64) =>
      match ReadInode(p, sb, d)
      case Failure(_) => []
      case Success(inode) => if inode.size <= |p| then WholeSlots(p, sb, inode) else []
  }

  lemma {:induction false} ChainSame(g: Graph, h: Graph, path: seq<U64>)
    requires forall d | InClosure(g, d) :: h(d) == g(d)
    requires Chain(h, path)
    ensures Chain(g, path) && InClosure(g, path[|path| - 1])
    decreases |path|
  {
    hide Edge;
    if |path| > 1 {
      var front := path[..|path| - 1];
      assert Chain(h, front);
      ChainSame(g, h, front);
      EdgeSame(g, h, path[|path| - 2], path[|path| - 1]);
    }
  }

  lemma EdgeSame(g: Graph, h: Graph, a: U64, b: U64)
    requires h(a) == g(a)
    ensures Edge(g, a, b) <==> Edge(h, a, b)
  {
  }

  /** Graphs that agree on one's closure have the same closure and name the same numbers. */
  lemma SameClosure(g: Graph, h: Graph)
    requires forall d | InClosure(g, d) :: h(d) == g(d)
    ensures forall d :: InClosure(h, d) <==> InClosure(g, d)
    ensures forall x :: Named(h, x) <==> Named(g, x)
  {
    hide Edge;
    forall d | InClosure(h, d)
      ensures InClosure(g, d)
    {
      var path :| Chain(h, path) && path[|path| - 1] == d;
      ChainSame(g, h, path);
    }
    ClosureGrows(g, h);
  }

  lemma {:induction false} ChainGrows(g: Graph, h: Graph, path: seq<U64>)
    requires forall d, x | InClosure(g, d) && x in g(d) :: x in h(d)
    requires Chain(g, path)
    ensures Chain(h, path)
    decreases |path|
  {
    if |path| > 1 {
      var front := path[..|path| - 1];
      assert Chain(g, front);
      ChainGrows(g, h, front);
      assert InClosure(g, path[|path| - 2]);
      assert Edge(g, path[|path| - 2], path[|path| - 1]);
    }
  }

  /** A graph with more slots has a larger closure and names more. */
  lemma ClosureGrows(g: Graph, h: Graph)
    requires forall d, x | InClosure(g, d) && x in g(d) :: x in h(d)
    ensures forall d | InClosure(g, d) :: InClosure(h, d)
    ensures forall x | Named(g, x) :: Named(h, x)
  {
    forall d | InClosure(g, d)
      ensures InClosure(h, d)
    {
      var path :| Chain(g, path) && path[|path| - 1] == d;
      ChainGrows(g, h, path);
    }
    forall x | Named(g, x)
      ensures Named(h, x)
    {
      if x != UFS_ROOTINO {
        var d :| InClosure(g, d) && Names(g, d, x);
        assert Names(h, d, x);
      }
    }
  }

  // ── the orphan sweep's promise ─────────────────────────────────────────────

  /** In use, readable and linked, but named nowhere in any directory reached from the root. */
  ghost predicate IsUnreferenced(p: Buffer, sb: Superblock, ino: U64)
    requires HasBlocks(sb)
  {
    IsLinked(p, sb, ino) && !Named(ContentGraph(p, sb), ino)
  }

  /** Every directory the listings reach can be read whole. */
  ghost predicate AllIntact(p: Buffer, sb: Superblock)
    requires HasBlocks(sb)
  {
    forall d | InClosure(ListingGraph(p, sb), d) && ReadInode(p, sb, d).Success? ::
      Intact(p, sb, ReadInode(p, sb, d).value)
  }

  ghost predicate AllDirectOnly(p: Buffer, sb: Superblock)
    requires HasBlocks(sb) && AllIntact(p, sb)
  {
    forall d | InClosure(ListingGraph(p, sb), d) && ReadInode(p, sb, d).Success? ::
      DirectOnly(p, sb, ReadInode(p, sb, d).value)
  }

  /** When directories can be read whole, every truly unreferenced inode is reported. */
  lemma NoUnreferencedIsMissed(p: Buffer, sb: Superblock, ino: U64)
    requires HasBlocks(sb) && AllIntact(p, sb) && IsUnreferenced(p, sb, ino)
    ensures OrphanedInode(ino, ReadInode(p, sb, ino).value.nlink) in Orphans(p, sb)
  {
    hide ReadInode, DirSlots, WholeSlots, InClosure, Intact, Named, Orphans, IsLinked;
    var g, h := ListingGraph(p, sb), ContentGraph(p, sb);
    forall d, x | InClosure(g, d) && x in g(d)
      ensures x in h(d)
    {
      IntactSize(p, sb, ReadInode(p, sb, d).value);
      ListingIsWholeIff(p, sb, ReadInode(p, sb, d).value);
    }
    ClosureGrows(g, h);
    Linked(p, sb, ino);
    NoOrphanIsMissed(p, sb, ino);
  }

  lemma IntactSize(p: Buffer, sb: Superblock, inode: Inode)
    requires HasBlocks(sb) && Intact(p, sb, inode)
    ensures inode.size <= |p|
  {
  }

  lemma Linked(p: Buffer, sb: Superblock, ino: U64)
    requires IsLinked(p, sb, ino)
    ensures ReadInode(p, sb, ino).Success?
  {
  }

  /**
   * The promise kept: when every directory of the closure is intact and has no slot past its direct blocks, the closure
   * fits the budget and directories come first, the sweep reports exactly the inodes that no directory names. Otherwise
   * it may report a named one: `Counterexamples.LateInodeIsReported`, `Counterexamples.HiddenInodeIsReported`.
   */
  lemma OrphansAreUnreferenced(p: Buffer, sb: Superblock, all: seq<U64>)
    requires HasBlocks(sb) && AllIntact(p, sb) && AllDirectOnly(p, sb)
    requires |all| <= BUDGET && forall d | InClosure(ListingGraph(p, sb), d) :: d in all
    requires DirectoriesComeFirst(ListingGraph(p, sb))
    ensures forall ino: U64, nlink: U16 :: OrphanedInode(ino, nlink) in Orphans(p, sb) <==>
              IsUnreferenced(p, sb, ino) && ReadInode(p, sb, ino).value.nlink == nlink
  {
    hide ReadInode, DirSlots, WholeSlots, InClosure, Intact, DirectOnly, Named, Orphans, IsLinked,
         DirectoriesComeFirst;
    var g, h := ListingGraph(p, sb), ContentGraph(p, sb);
    forall d | InClosure(g, d)
      ensures h(d) == g(d)
    {
      if ReadInode(p, sb, d).Success? {
        IntactSize(p, sb, ReadInode(p, sb, d).value);
        ListingIsWholeIff(p, sb, ReadInode(p, sb, d).value);
      }
    }
    SameClosure(g, h);
    OrphansAreUnnamed(p, sb, all);
  }
}
