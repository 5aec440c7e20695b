/** Recovery of deleted names and deleted files (forensic/src/lib.rs). */
module Carve {
  import opened Bytes
  import opened Gathering
  import opened Superblocks
  import opened Inodes
  import opened BlockMap
  import opened Directory
  import opened Listing
  import opened Traversal
  import opened Groups
  import opened Audit

  datatype RecoveredItem =
    | DeletedFile(name: Option<seq<Byte>>, inode: U64, size: U64, content: seq<Byte>)
    | DeletedDirent(residual: DeletedName)

  // ── one inode ──────────────────────────────────────────────────────────────

  /** Free in its bitmap, yet still a regular file with content that can be read back. */
  ghost predicate IsCarvable(p: Buffer, sb: Superblock, ino: U64) {
    && UFS_ROOTINO < ino < InodeCount(sb)
    && InodeUsed(p, sb, ino) == Some(false)
    && ReadInode(p, sb, ino).Success?
    && (var inode := ReadInode(p, sb, ino).value;
        inode.IsRegular() && inode.size > 0 && inode.direct[0] != 0)
    && FileAt(p, sb, ino).Success?
  }

  /** The first collected name that carries this inode number. */
  function NameFor(names: seq<DeletedName>, ino: U64): Option<seq<Byte>> {
    if names == [] then None
    else if names[0].ino == ino then Some(names[0].name)
    else NameFor(names[1..], ino)
  }

  ghost function CarvedAt(p: Buffer, sb: Superblock, names: seq<DeletedName>): nat -> seq<RecoveredItem> {
    (ino: nat) =>
      if ino <= U64_MAX && IsCarvable(p, sb, ino)
      then [DeletedFile(NameFor(names, ino), ino, ReadInode(p, sb, ino).value.size, FileAt(p, sb, ino).value)]
      else []
  }

  /** Every carvable file of the image, by ascending inode number. */
  ghost function Carved(p: Buffer, sb: Superblock, names: seq<DeletedName>): seq<RecoveredItem> {
    Gather(CarvedAt(p, sb, names), InodeCount(sb))
  }

  // ── the sweep ──────────────────────────────────────────────────────────────

  method CarveDeletedInodes(p: Buffer, sb: Superblock, names: seq<DeletedName>, out: seq<RecoveredItem>)
    returns (out': seq<RecoveredItem>)
    ensures out' == out + Carved(p, sb, names)
  {
    hide Gather, InodeUsed, CgInodeBitmap, InodeCount, AtGroup, ReadInode, FileAt, NameFor;
    ghost var f := CarvedAt(p, sb, names);
    out' := out;
    GatherNone(f);
    if sb.ipg <= 0 {
      NoInodes(sb);
      return;
    }
    ghost var base: nat := 0;
    FirstGroup(sb);
    for cg := 0 to sb.ncg
      invariant out' == out + Gather(f, base) && AtGroup(sb, cg, base)
    {
      var used := CgInodeBitmap(p, sb, cg);
      ghost var next := base + sb.ipg;
      if used.None? {
        forall ino: nat | base <= ino < next
          ensures f(ino) == []
        {
          GroupInode(p, sb, cg, base, ino - base);
        }
        GatherNoMore(f, base, next);
      } else {
        out' := CarveGroup(out', p, sb, names, cg, used.value, out, base);
      }
      NextGroup(sb, cg, base);
      base := next;
    }
    LastGroup(sb, base);
  }

  /** The inner loop: the slots of one group whose bitmap is at hand. */
  method CarveGroup(out: seq<RecoveredItem>, p: Buffer, sb: Superblock, names: seq<DeletedName>, cg: U64, used: Buffer,
                    ghost start: seq<RecoveredItem>, ghost base: nat)
    returns (out': seq<RecoveredItem>)
    requires AtGroup(sb, cg, base) && cg < sb.ncg && CgInodeBitmap(p, sb, cg) == Some(used)
    requires out == start + Gather(CarvedAt(p, sb, names), base)
    ensures out' == start + Gather(CarvedAt(p, sb, names), base + sb.ipg)
  {
    hide Gather, ReadInode, InodeUsed, CgInodeBitmap, BitmapBit, InodeCount, SatMul, FileAt, NameFor;
    ghost var f := CarvedAt(p, sb, names);
    var total := SatMul(sb.ipg, sb.ncg);
    TotalIsCount(sb);
    out' := out;
    for within := 0 to sb.ipg
      invariant out' == start + Gather(f, base + within)
    {
      GroupInode(p, sb, cg, base, within);
      GatherStep(f, base + within);
      var ino := SatAdd(SatMul(cg, sb.ipg), within);
      assert ino == base + within;
      if ino < UFS_ROOTINO + 1 || ino >= total {
        continue;
      }
      if BitmapBit(used, within) {
        continue;
      }
      var inode := ReadInode(p, sb, ino);
      if inode.Failure? {
        continue;
      }
      if !inode.value.IsRegular() || inode.value.size == 0 || inode.value.direct[0] == 0 {
        continue;
      }
      var content := ReadFile(p, sb, ino);
      if content.Failure? {
        continue;
      }
      ContentHasSize(p, sb, ino);
      if content.value == [] {
        continue;
      }
      out' := out' + [DeletedFile(NameFor(names, ino), ino, inode.value.size, content.value)];
    }
  }

  /** A file that can be read comes back at its full size, so carved content is never empty. */
  lemma ContentHasSize(p: Buffer, sb: Superblock, ino: U64)
    requires FileAt(p, sb, ino).Success?
    ensures ReadInode(p, sb, ino).Success? && |FileAt(p, sb, ino).value| == ReadInode(p, sb, ino).value.size
  {
    hide ReadInode, FileBytes;
  }

  // ── the whole recovery ─────────────────────────────────────────────────────

  function Dirents(names: seq<DeletedName>): seq<RecoveredItem> {
    seq(|names|, i requires 0 <= i < |names| => DeletedDirent(names[i]))
  }

  /** What recovery from `p` must return: deleted names, then deleted files. */
  ghost function RecoveredFrom(p: Buffer): seq<RecoveredItem> {
    match ParsePrimarySb(p)
    case Failure(_) => []
    case Success(sb) =>
      var names := Collect(ListingGraph(p, sb)).deleted;
      Dirents(names) + Carved(p, sb, names)
  }

  method RecoverDeleted(p: Buffer) returns (out: seq<RecoveredItem>)
    ensures out == RecoveredFrom(p)
  {
    hide ParsePrimarySb, Collect, Carved;
    out := [];
    var parsed := ParsePrimarySb(p);
    if parsed.Failure? {
      return;
    }
    var sb := parsed.value;
    var names := CollectDeletedDirents(p, sb);
    for i := 0 to |names|
      invariant out == Dirents(names)[..i]
    {
      out := out + [DeletedDirent(names[i])];
    }
    out := CarveDeletedInodes(p, sb, names, out);
  }

  // ── what recovery means ────────────────────────────────────────────────────

  /** A listing's collected names are exactly its residual slots. */
  lemma {:induction false} DeletedOfExact(es: seq<DirEntry>, n: DeletedName)
    ensures n in DeletedOf(es) <==>
              exists x ::
                && x in es && x.deleted && x.name != [] && x.name != [46] && x.name != [46, 46]
                && n == DeletedName(x.name, x.ino)
    decreases |es|
  {
    if es != [] {
      var front, last := es[..|es| - 1], es[|es| - 1];
      assert es == front + [last];
      DeletedOfExact(front, n);
    }
  }

  lemma SlotsDeleted(p: Buffer, sb: Superblock, inode: Inode, x: DirEntry)
    requires x in DirSlots(p, sb, inode)
    ensures x.deleted <==> x.ino == 0
  {
    hide Walk, FragByte, Left, Gather;
    GatherMember(DirBlock(p, sb, inode), UFS_NDADDR, x);
    var k: nat :| k < UFS_NDADDR && x in DirBlock(p, sb, inode)(k);
    var left := Left(inode.size, WalkBsize(sb), k);
    WalkDeleted(sb.endian, Clip(p, FragByte(sb, inode.direct[k]), Min(left, WalkBsize(sb))), x);
  }

  lemma {:induction false} DeletedInZero(p: Buffer, sb: Superblock, dirs: seq<U64>, n: DeletedName)
    requires n in DeletedIn(ListingGraph(p, sb), dirs)
    ensures n.ino == 0
    decreases |dirs|
  {
    hide DirSlots, ReadInode, DeletedOf;
    var g := ListingGraph(p, sb);
    var front, d := dirs[..|dirs| - 1], dirs[|dirs| - 1];
    if n in DeletedIn(g, front) {
      DeletedInZero(p, sb, front, n);
    } else {
      forall x | x in g(d)
        ensures x.deleted ==> x.ino == 0
      {
        SlotsDeleted(p, sb, ReadInode(p, sb, d).value, x);
      }
      DeletedOfExact(g(d), n);
    }
  }

  lemma {:induction false} NoNameFor(names: seq<DeletedName>, ino: U64)
    requires ino > 0 && forall n | n in names :: n.ino == 0
    ensures NameFor(names, ino) == None
    decreases |names|
  {
    if names != [] {
      assert names[0] in names && forall n | n in names[1..] :: n in names;
      NoNameFor(names[1..], ino);
    }
  }

  /** Every name the deleted walk collects carries inode number 0, so no carved file is ever paired with one. */
  lemma CarvedAreNameless(p: Buffer, sb: Superblock, ino: U64)
    requires ino > 0
    ensures NameFor(Collect(ListingGraph(p, sb)).deleted, ino) == None
  {
    hide Collect, NameFor;
    var r := Collect(ListingGraph(p, sb));
    CollectOnAnyGraph(ListingGraph(p, sb));
    forall n | n in r.deleted
      ensures n.ino == 0
    {
      DeletedInZero(p, sb, r.visited, n);
    }
    NoNameFor(r.deleted, ino);
  }

  /** What makes an inode carvable, number by number. */
  lemma CarvableExact(p: Buffer, sb: Superblock, ino: U64)
    ensures IsCarvable(p, sb, ino) <==>
              && 3 <= ino < InodeCount(sb) && InodeUsed(p, sb, ino) == Some(false) && ReadInode(p, sb, ino).Success?
              && (var inode := ReadInode(p, sb, ino).value;
                  && inode.fileType == Regular && 0 < inode.size <= |p| && inode.direct[0] != 0
                  && sb.bsize > 0 && sb.fsize > 0)
    ensures IsCarvable(p, sb, ino) ==> |FileAt(p, sb, ino).value| == ReadInode(p, sb, ino).value.size
  {
    hide ReadInode, InodeUsed, InodeCount, FileContent;
    if ReadInode(p, sb, ino).Success? {
      ContentRefused(p, sb, ReadInode(p, sb, ino).value);
    }
  }

  /**
   * The sweep returns exactly the carvable files, each with its content, by strictly ascending inode number. None is
   * longer than the image, and each content has the size that the inode records.
   */
  lemma CarvedExact(p: Buffer, sb: Superblock, names: seq<DeletedName>)
    ensures var found := Carved(p, sb, names);
            && (forall x | x in found :: x.DeletedFile?)
            && (forall i, j | 0 <= i < j < |found| && found[i].DeletedFile? && found[j].DeletedFile? ::
                  found[i].inode < found[j].inode)
            && (forall x: RecoveredItem | x.DeletedFile? :: x in found <==>
                  && IsCarvable(p, sb, x.inode) && x.name == NameFor(names, x.inode)
                  && x.size == ReadInode(p, sb, x.inode).value.size
                  && Success(x.content) == FileAt(p, sb, x.inode))
            && (forall x: RecoveredItem | x in found && x.DeletedFile? :: 0 < |x.content| == x.size <= |p|)
  {
    hide Gather, FileAt, ReadInode, InodeUsed, InodeCount, NameFor;
    var f := CarvedAt(p, sb, names);
    var n := InodeCount(sb);
    var tag := (x: RecoveredItem) => if x.DeletedFile? then x.inode else 0;
    GatherAscending(f, n, tag);
    forall x
      ensures x in Gather(f, n) <==> exists k: nat :: k < n && x in f(k)
    {
      GatherMember(f, n, x);
    }
    forall x: RecoveredItem | x.DeletedFile?
      ensures x in Gather(f, n) <==>
                && IsCarvable(p, sb, x.inode) && x.name == NameFor(names, x.inode)
                && x.size == ReadInode(p, sb, x.inode).value.size
                && Success(x.content) == FileAt(p, sb, x.inode)
      ensures x in Gather(f, n) ==> 0 < |x.content| == x.size <= |p|
    {
      CarvableExact(p, sb, x.inode);
      if IsCarvable(p, sb, x.inode) {
        assert f(x.inode) == [DeletedFile(NameFor(names, x.inode), x.inode, ReadInode(p, sb, x.inode).value.size,
                                          FileAt(p, sb, x.inode).value)];
      }
    }
  }

  /** A name comes first in its list among those of its inode number. */
  lemma {:induction false} NameForExact(names: seq<DeletedName>, ino: U64)
    ensures NameFor(names, ino) == None <==> forall n | n in names :: n.ino != ino
    ensures forall k | 0 <= k < |names| && names[k].ino == ino && (forall i | 0 <= i < k :: names[i].ino != ino) ::
              NameFor(names, ino) == Some(names[k].name)
    decreases |names|
  {
    if names != [] {
      var rest := names[1..];
      NameForExact(rest, ino);
      assert names == [names[0]] + rest;
      forall k | 0 <= k < |names| && names[k].ino == ino && (forall i | 0 <= i < k :: names[i].ino != ino)
        ensures NameFor(names, ino) == Some(names[k].name)
      {
        if k > 0 {
          assert rest[k - 1] == names[k] && forall i | 0 <= i < k - 1 :: rest[i] == names[i + 1];
        }
      }
    }
  }

  /** No inode is both an orphan and a carvable file. */
  lemma SweepsAreExclusive(p: Buffer, sb: Superblock, reachable: seq<U64>, names: seq<DeletedName>, ino: U64)
    ensures !(IsOrphan(p, sb, reachable, ino) && IsCarvable(p, sb, ino))
    ensures OrphanAt(p, sb, reachable)(ino) == [] || CarvedAt(p, sb, names)(ino) == []
  {
    hide InodeUsed, ReadInode, FileAt, InodeCount;
  }

  /**
   * Recovery, item by item. A name is reported exactly when the deleted-slot walk collects it. A file is reported
   * exactly when its number is in range, its bit clear, and its inode readable, regular, of a size between one byte and
   * the image, with a first block; it is then nameless, with the inode's size and exactly the content the inode
   * leads to. The names come first, in the order collected, and then the files by strictly ascending number.
   */
  lemma RecoverExact(p: Buffer, sb: Superblock)
    requires ParsePrimarySb(p) == Success(sb)
    ensures var names := Collect(ListingGraph(p, sb)).deleted;
            && |names| <= |RecoveredFrom(p)|
            && (forall k | 0 <= k < |names| :: RecoveredFrom(p)[k] == DeletedDirent(names[k]))
            && (forall k | |names| <= k < |RecoveredFrom(p)| :: RecoveredFrom(p)[k].DeletedFile?)
    ensures forall x: RecoveredItem | x.DeletedFile? :: x in RecoveredFrom(p) <==>
              && 3 <= x.inode < InodeCount(sb) && InodeUsed(p, sb, x.inode) == Some(false)
              && ReadInode(p, sb, x.inode).Success?
              && (var inode := ReadInode(p, sb, x.inode).value;
                  && inode.fileType == Regular && 0 < inode.size <= |p| && inode.direct[0] != 0
                  && x.size == inode.size && Success(x.content) == FileAt(p, sb, x.inode))
              && x.name == None
    ensures forall x: RecoveredItem | x in RecoveredFrom(p) && x.DeletedFile? :: |x.content| == x.size <= |p|
    ensures forall i, j | 0 <= i < j < |RecoveredFrom(p)| && RecoveredFrom(p)[i].DeletedFile? ::
              RecoveredFrom(p)[j].DeletedFile? && RecoveredFrom(p)[i].inode < RecoveredFrom(p)[j].inode
  {
    hide ParsePrimarySb, Collect, Carved, NameFor, ReadInode, InodeUsed, InodeCount, FileAt, IsCarvable;
    var names := Collect(ListingGraph(p, sb)).deleted;
    var dirents, files := Dirents(names), Carved(p, sb, names);
    PrimaryIsSane(p);
    CarvedExact(p, sb, names);
    assert RecoveredFrom(p) == dirents + files;
    forall k | 0 <= k < |files|
      ensures files[k].DeletedFile?
    {
      assert files[k] in files;
    }
    forall x: RecoveredItem | x.DeletedFile?
      ensures x in dirents + files <==> x in files
    {
    }
    forall x: RecoveredItem | x.DeletedFile?
      ensures 3 <= x.inode ==> NameFor(names, x.inode) == None
      ensures IsCarvable(p, sb, x.inode) <==>
                && 3 <= x.inode < InodeCount(sb) && InodeUsed(p, sb, x.inode) == Some(false)
                && ReadInode(p, sb, x.inode).Success?
                && (var inode := ReadInode(p, sb, x.inode).value;
                    inode.fileType == Regular && 0 < inode.size <= |p| && inode.direct[0] != 0)
    {
      CarvableExact(p, sb, x.inode);
      if x.inode > 0 {
        CarvedAreNameless(p, sb, x.inode);
      }
    }
    FilesLast(dirents, files);
  }

  lemma FilesLast(dirents: seq<RecoveredItem>, files: seq<RecoveredItem>)
    requires forall x | x in dirents :: x.DeletedDirent?
    requires forall x | x in files :: x.DeletedFile?
    requires forall i, j | 0 <= i < j < |files| && files[i].DeletedFile? && files[j].DeletedFile? ::
               files[i].inode < files[j].inode
    ensures forall i, j | 0 <= i < j < |dirents + files| && (dirents + files)[i].DeletedFile? ::
              (dirents + files)[j].DeletedFile? && (dirents + files)[i].inode < (dirents + files)[j].inode
  {
    assert forall k | 0 <= k < |dirents| :: dirents[k] in dirents;
    forall i, j | 0 <= i < j < |dirents + files| && (dirents + files)[i].DeletedFile?
      ensures (dirents + files)[j].DeletedFile? && (dirents + files)[i].inode < (dirents + files)[j].inode
    {
      assert files[i - |dirents|] in files && files[j - |dirents|] in files;
    }
  }

  // ── when there is nothing to recover ───────────────────────────────────────

  /** No superblock, or no residual slot in any directory walked and no carvable inode. */
  ghost predicate NothingToRecover(p: Buffer) {
    match ParsePrimarySb(p)
    case Failure(_) => true
    case Success(sb) =>
      var g := ListingGraph(p, sb);
      && (forall d, x | d in Collect(g).visited && x in g(d) :: !Residual(x))
      && (forall ino: U64 :: !IsCarvable(p, sb, ino))
  }

  lemma NoResidual(es: seq<DirEntry>)
    ensures DeletedOf(es) == [] <==> forall x | x in es :: !Residual(x)
  {
    hide DeletedOf;
    if x :| x in es && Residual(x) {
      DeletedOfExact(es, DeletedName(x.name, x.ino));
    }
    if DeletedOf(es) != [] {
      DeletedOfExact(es, DeletedOf(es)[0]);
      assert exists x :: x in es && Residual(x);
    }
  }

  lemma {:induction false} NoneDeletedIn(g: Graph, dirs: seq<U64>)
    ensures DeletedIn(g, dirs) == [] <==> forall d | d in dirs :: DeletedOf(g(d)) == []
    decreases |dirs|
  {
    hide DeletedOf;
    if dirs != [] {
      var front, last := dirs[..|dirs| - 1], dirs[|dirs| - 1];
      assert dirs == front + [last];
      NoneDeletedIn(g, front);
    }
  }

  lemma NothingCarved(p: Buffer, sb: Superblock, names: seq<DeletedName>)
    ensures Carved(p, sb, names) == [] <==> forall ino: U64 :: !IsCarvable(p, sb, ino)
  {
    hide Carved, NameFor, FileAt, ReadInode, InodeUsed, InodeCount;
    CarvedExact(p, sb, names);
    var found := Carved(p, sb, names);
    if found != [] {
      assert found[0] in found && IsCarvable(p, sb, found[0].inode);
    }
    if ino: U64 :| IsCarvable(p, sb, ino) {
      var x := DeletedFile(NameFor(names, ino), ino, ReadInode(p, sb, ino).value.size, FileAt(p, sb, ino).value);
      assert x in found;
    }
  }

  /** Recovery is empty exactly when there is nothing to recover. */
  lemma RecoverEmptyIff(p: Buffer)
    ensures RecoveredFrom(p) == [] <==> NothingToRecover(p)
  {
    hide ParsePrimarySb, Collect, Carved, IsCarvable, Residual, DeletedOf, DeletedIn;
    var parsed := ParsePrimarySb(p);
    if parsed.Success? {
      var g := ListingGraph(p, parsed.value);
      var r := Collect(g);
      CollectOnAnyGraph(g);
      NoneDeletedIn(g, r.visited);
      NothingCarved(p, parsed.value, r.deleted);
      forall d | d in r.visited
        ensures DeletedOf(g(d)) == [] <==> forall x | x in g(d) :: !Residual(x)
      {
        NoResidual(g(d));
      }
    }
  }
}
