/** The two worklist walks over the directory graph (forensic/src/lib.rs), which may be cyclic. */
module Traversal {
  import opened Bytes
  import opened Superblocks
  import opened Inodes
  import opened Directory
  import opened Listing

  /** The slots of every inode number; a number that cannot be listed has none. */
  type Graph = U64 -> seq<DirEntry>

  function ListingGraph(p: Buffer, sb: Superblock): Graph {
    (ino: U64) =>
      match ListDirAll(p, sb, ino)
      case Failure(_) => []
      case Success(slots) => slots
  }

  const BUDGET: nat := 0x10_0000
  const DOT: seq<Byte> := [46]
  const DOTDOT: seq<Byte> := [46, 46]

  predicate IsDot(x: DirEntry) {
    x.name == DOT || x.name == DOTDOT
  }

  /** A live entry other than `.` and `..`. */
  predicate Visible(x: DirEntry) {
    !x.deleted && !IsDot(x)
  }

  predicate IsDirEntry(x: DirEntry) {
    x.fileType == DtDirectory
  }

  // ── the graph ──────────────────────────────────────────────────────────────

  /** `a` has a live DT_DIR entry for `b`. */
  ghost predicate Edge(g: Graph, a: U64, b: U64) {
    exists x :: x in g(a) && Visible(x) && IsDirEntry(x) && x.ino == b
  }

  ghost predicate Chain(g: Graph, path: seq<U64>) {
    && path != [] && path[0] == UFS_ROOTINO
    && forall i | 0 <= i < |path| - 1 :: Edge(g, path[i], path[i + 1])
  }

  /** `d` ends a chain of DT_DIR entries from the root. */
  ghost predicate InClosure(g: Graph, d: U64) {
    exists path :: Chain(g, path) && path[|path| - 1] == d
  }

  ghost predicate Names(g: Graph, d: U64, x: U64) {
    exists e :: e in g(d) && Visible(e) && e.ino == x
  }

  /** The root, or a number that a live entry of some directory of the closure names. */
  ghost predicate Named(g: Graph, x: U64) {
    x == UFS_ROOTINO || exists d :: InClosure(g, d) && Names(g, d, x)
  }

  /** The root, or a number that one of these directories names. */
  ghost predicate NamedBy(g: Graph, dirs: seq<U64>, x: U64) {
    x == UFS_ROOTINO || exists d :: d in dirs && Names(g, d, x)
  }

  /** Some live entry of the closure names `x` without being DT_DIR. */
  ghost predicate NamedAsFile(g: Graph, x: U64) {
    exists d, e :: InClosure(g, d) && e in g(d) && Visible(e) && e.ino == x && !IsDirEntry(e)
  }

  /** No inode but the root is named both as a directory and as something else. */
  ghost predicate TypesAgree(g: Graph) {
    forall a, b | InClosure(g, a) && Edge(g, a, b) && b != UFS_ROOTINO :: !NamedAsFile(g, b)
  }

  /** An edge is a live DT_DIR entry other than `.` and `..`; a name, a live entry of any kind other than these. */
  lemma EdgesAndNames(g: Graph, a: U64, b: U64)
    ensures Edge(g, a, b) <==>
              exists x ::
                && x in g(a) && !x.deleted && x.name != [46] && x.name != [46, 46] && x.fileType == DtDirectory
                && x.ino == b
    ensures Names(g, a, b) <==>
              exists x :: x in g(a) && !x.deleted && x.name != [46] && x.name != [46, 46] && x.ino == b
  {
    assert forall x :: Visible(x) <==> !x.deleted && x.name != [46] && x.name != [46, 46];
  }

  lemma RootInClosure(g: Graph)
    ensures InClosure(g, UFS_ROOTINO)
  {
    assert Chain(g, [UFS_ROOTINO]);
  }

  lemma ClosureStep(g: Graph, a: U64, b: U64)
    requires InClosure(g, a) && Edge(g, a, b)
    ensures InClosure(g, b)
  {
    hide Edge;
    var path :| Chain(g, path) && path[|path| - 1] == a;
    var longer := path + [b];
    assert Chain(g, longer);
  }

  /** A set that holds the root and is closed under edges holds the whole closure. */
  lemma {:induction false} ClosureInside(g: Graph, s: seq<U64>, path: seq<U64>)
    requires UFS_ROOTINO in s
    requires forall a, b | a in s && Edge(g, a, b) :: b in s
    requires Chain(g, path)
    ensures path[|path| - 1] in s
    decreases |path|
  {
    hide Edge;
    if |path| > 1 {
      var front := path[..|path| - 1];
      assert Chain(g, front);
      ClosureInside(g, s, front);
      assert Edge(g, path[|path| - 2], path[|path| - 1]);
    }
  }

  // ── sequences without repetition ───────────────────────────────────────────

  ghost predicate NoDup<T>(s: seq<T>) {
    forall i, j | 0 <= i < j < |s| :: s[i] != s[j]
  }

  lemma NoDupPush<T>(s: seq<T>, x: T)
    requires NoDup(s) && x !in s
    ensures NoDup(s + [x])
  {
  }

  /** `all` minus one occurrence of `x`. */
  lemma Without<T>(all: seq<T>, x: T) returns (a: seq<T>, b: seq<T>)
    requires x in all
    ensures all == a + [x] + b
  {
    var i :| 0 <= i < |all| && all[i] == x;
    a, b := all[..i], all[i + 1..];
  }

  lemma {:induction false} NoDupFits<T>(s: seq<T>, all: seq<T>)
    requires NoDup(s) && forall x | x in s :: x in all
    ensures |s| <= |all|
    decreases |s|
  {
    if s != [] {
      var x, front := s[|s| - 1], s[..|s| - 1];
      var a, b := Without(all, x);
      forall y | y in front
        ensures y in a + b
      {
        assert y in all && y != x;
      }
      NoDupFits(front, a + b);
    }
  }

  // ── reachable_inodes ───────────────────────────────────────────────────────

  datatype Scan = Scan(reachable: seq<U64>, queue: seq<U64>)

  /** The inner loop: only the first sighting of a number records it, and queues it if DT_DIR. */
  function ScanReach(es: seq<DirEntry>, st: Scan): Scan
    decreases |es|
  {
    if es == [] then st else ScanReach(es[1..], SeeEntry(es[0], st))
  }

  function SeeEntry(x: DirEntry, st: Scan): Scan {
    if Visible(x) && x.ino !in st.reachable then
      Scan(st.reachable + [x.ino], if IsDirEntry(x) then st.queue + [x.ino] else st.queue)
    else st
  }

  /** What a walk leaves: numbers found, directories expanded, and those still queued when the budget ran out. */
  datatype Reached = Reached(reachable: seq<U64>, expanded: seq<U64>, pending: seq<U64>)

  /** The outer loop: pop the last queued directory, at most `budget` times. */
  function ReachLoop(g: Graph, budget: nat, st: Scan, expanded: seq<U64>): Reached
    decreases budget
  {
    if st.queue == [] || budget == 0 then Reached(st.reachable, expanded, st.queue)
    else
      var d := st.queue[|st.queue| - 1];
      var popped := Scan(st.reachable, st.queue[..|st.queue| - 1]);
      ReachLoop(g, budget - 1, ScanReach(g(d), popped), expanded + [d])
  }

  function Reach(g: Graph): Reached {
    ReachLoop(g, BUDGET, Scan([UFS_ROOTINO], [UFS_ROOTINO]), [])
  }

  method ReachableInodes(p: Buffer, sb: Superblock) returns (reachable: seq<U64>)
    ensures reachable == Reach(ListingGraph(p, sb)).reachable
  {
    hide ReadInode, DirSlots, SeeEntry, ScanReach, ReachLoop;
    ghost var g := ListingGraph(p, sb);
    reachable := [UFS_ROOTINO];
    var queue: seq<U64> := [UFS_ROOTINO];
    var budget := BUDGET;
    ghost var expanded := [];
    while queue != []
      invariant Reach(g) == ReachLoop(g, budget, Scan(reachable, queue), expanded)
      decreases budget, |queue|
    {
      var dirIno := queue[|queue| - 1];
      ReachUnfold(g, budget, Scan(reachable, queue), expanded);
      if budget == 0 {
        return;
      }
      queue := queue[..|queue| - 1];
      budget := budget - 1;
      expanded := expanded + [dirIno];
      var inode := ReadInode(p, sb, dirIno);
      if inode.Failure? {
        ScanNothing(Scan(reachable, queue));
        continue;
      }
      var entries := ListDirEntries(p, sb, inode.value);
      assert g(dirIno) == entries;
      ghost var start := Scan(reachable, queue);
      for i := 0 to |entries|
        invariant ScanReach(entries, start) == ScanReach(entries[i..], Scan(reachable, queue))
      {
        var x := entries[i];
        ScanOne(entries, i, Scan(reachable, queue));
        if x.deleted || IsDot(x) {
          continue;
        }
        if x.ino !in reachable {
          reachable := reachable + [x.ino];
          if IsDirEntry(x) {
            queue := queue + [x.ino];
          }
        }
      }
      assert entries[|entries|..] == [];
      ScanNothing(Scan(reachable, queue));
    }
    ReachUnfold(g, budget, Scan(reachable, queue), expanded);
  }

  lemma ReachUnfold(g: Graph, budget: nat, st: Scan, expanded: seq<U64>)
    ensures ReachLoop(g, budget, st, expanded) ==
              if st.queue == [] || budget == 0 then Reached(st.reachable, expanded, st.queue)
              else
                var d := st.queue[|st.queue| - 1];
                var popped := Scan(st.reachable, st.queue[..|st.queue| - 1]);
                ReachLoop(g, budget - 1, ScanReach(g(d), popped), expanded + [d])
  {
  }

  lemma ScanNothing(st: Scan)
    ensures ScanReach([], st) == st
  {
  }

  lemma ScanOne(es: seq<DirEntry>, i: nat, st: Scan)
    requires i < |es|
    ensures ScanReach(es[i..], st) == ScanReach(es[i + 1..], SeeEntry(es[i], st))
    ensures SeeEntry(es[i], st) ==
              if Visible(es[i]) && es[i].ino !in st.reachable then
                Scan(st.reachable + [es[i].ino], if IsDirEntry(es[i]) then st.queue + [es[i].ino] else st.queue)
              else st
  {
    assert es[i..][1..] == es[i + 1..];
  }

  // ── what the walk finds ────────────────────────────────────────────────────

  /**
   * Between two turns of the outer loop: nothing is listed twice, every queued or expanded number is a directory
   * of the closure, every number found is named by an expanded directory, and one that was not queued was first
   * seen as a file.
   */
  ghost predicate Sound(g: Graph, st: Scan, expanded: seq<U64>) {
    && NoDup(st.reachable)
    && NoDup(expanded + st.queue)
    && UFS_ROOTINO in expanded + st.queue
    && (forall d | d in expanded + st.queue :: InClosure(g, d) && d in st.reachable)
    && (forall x | x in st.reachable :: NamedBy(g, expanded, x) && (x in expanded + st.queue || NamedAsFile(g, x)))
  }

  /** Everything the expanded directories name has been found. */
  ghost predicate Covers(g: Graph, expanded: seq<U64>, reachable: seq<U64>) {
    forall d, x | d in expanded && Names(g, d, x) :: x in reachable
  }

  lemma SeeEntrySound(g: Graph, st: Scan, expanded: seq<U64>, d: U64, x: DirEntry)
    requires Sound(g, st, expanded) && InClosure(g, d) && d in expanded && x in g(d)
    ensures Sound(g, SeeEntry(x, st), expanded)
    ensures st.reachable <= SeeEntry(x, st).reachable
    ensures Visible(x) ==> x.ino in SeeEntry(x, st).reachable
  {
    hide InClosure, Names, NamedAsFile, IsDirEntry, NoDup;
    var next := SeeEntry(x, st);
    if next != st {
      EntryNames(g, d, x);
      NoDupPush<U64>(st.reachable, x.ino);
      if IsDirEntry(x) {
        NoDupPush<U64>(expanded + st.queue, x.ino);
        assert expanded + next.queue == expanded + st.queue + [x.ino];
      }
    }
  }

  /** A visible entry of a closure directory names its inode, as a directory of the closure or as a file. */
  lemma EntryNames(g: Graph, d: U64, x: DirEntry)
    requires InClosure(g, d) && x in g(d) && Visible(x)
    ensures Names(g, d, x.ino)
    ensures if IsDirEntry(x) then InClosure(g, x.ino) else NamedAsFile(g, x.ino)
  {
    hide InClosure;
    if IsDirEntry(x) {
      assert Edge(g, d, x.ino);
      ClosureStep(g, d, x.ino);
    }
  }

  lemma {:induction false} ScanSound(g: Graph, st: Scan, expanded: seq<U64>, d: U64, es: seq<DirEntry>)
    requires Sound(g, st, expanded) && InClosure(g, d) && d in expanded && forall x | x in es :: x in g(d)
    ensures var next := ScanReach(es, st);
            && Sound(g, next, expanded) && st.reachable <= next.reachable
            && forall x | x in es && Visible(x) :: x.ino in next.reachable
    decreases |es|
  {
    hide Sound, InClosure, SeeEntry, Visible;
    if es != [] {
      assert es[0] in es && forall x | x in es[1..] :: x in es;
      SeeEntrySound(g, st, expanded, d, es[0]);
      ScanSound(g, SeeEntry(es[0], st), expanded, d, es[1..]);
      assert es == [es[0]] + es[1..];
    }
  }

  /** One turn of the outer loop keeps all of it. */
  lemma TurnSound(g: Graph, st: Scan, expanded: seq<U64>)
    requires Sound(g, st, expanded) && Covers(g, expanded, st.reachable) && st.queue != []
    ensures var d := st.queue[|st.queue| - 1];
            var next := ScanReach(g(d), Scan(st.reachable, st.queue[..|st.queue| - 1]));
            Sound(g, next, expanded + [d]) && Covers(g, expanded + [d], next.reachable)
  {
    hide ScanReach, InClosure, NamedAsFile;
    var d, rest := st.queue[|st.queue| - 1], st.queue[..|st.queue| - 1];
    PopSound(g, st, expanded);
    ScanSound(g, Scan(st.reachable, rest), expanded + [d], d, g(d));
  }

  lemma PopSound(g: Graph, st: Scan, expanded: seq<U64>)
    requires Sound(g, st, expanded) && st.queue != []
    ensures var d := st.queue[|st.queue| - 1];
            Sound(g, Scan(st.reachable, st.queue[..|st.queue| - 1]), expanded + [d]) && InClosure(g, d)
  {
    hide InClosure, Names, NamedAsFile;
    var d, rest := st.queue[|st.queue| - 1], st.queue[..|st.queue| - 1];
    assert d in st.queue && d in expanded + st.queue;
    var before, after := expanded + st.queue, expanded + [d] + rest;
    assert st.queue == rest + [d];
    forall i, j | 0 <= i < j < |after|
      ensures after[i] != after[j]
    {
      Rotated(expanded, rest, d, i);
      Rotated(expanded, rest, d, j);
    }
    forall x
      ensures x in before <==> x in after
    {
      assert x in before <==> x in expanded || x in rest || x == d;
      assert x in after <==> x in expanded || x in rest || x == d;
    }
  }

  /** Where element `i` of `a + [d] + b` sits in `a + b + [d]`. */
  lemma Rotated<T>(a: seq<T>, b: seq<T>, d: T, i: nat)
    requires i < |a| + 1 + |b|
    ensures (a + [d] + b)[i] ==
              (a + (b + [d]))[if i < |a| then i else if i == |a| then |a| + |b| else i - 1]
  {
  }

  lemma {:induction false} LoopSound(g: Graph, budget: nat, st: Scan, expanded: seq<U64>)
    requires Sound(g, st, expanded) && Covers(g, expanded, st.reachable)
    ensures var r := ReachLoop(g, budget, st, expanded);
            && Sound(g, Scan(r.reachable, r.pending), r.expanded) && Covers(g, r.expanded, r.reachable)
            && (r.pending != [] ==> |r.expanded| == |expanded| + budget)
    decreases budget
  {
    hide Sound, Covers, ScanReach;
    if st.queue != [] && budget > 0 {
      TurnSound(g, st, expanded);
      var d := st.queue[|st.queue| - 1];
      var popped := Scan(st.reachable, st.queue[..|st.queue| - 1]);
      LoopSound(g, budget - 1, ScanReach(g(d), popped), expanded + [d]);
    }
  }

  lemma ReachSound(g: Graph)
    ensures var r := Reach(g);
            && Sound(g, Scan(r.reachable, r.pending), r.expanded)
            && Covers(g, r.expanded, r.reachable)
            && (r.pending != [] ==> |r.expanded| == BUDGET)
  {
    hide InClosure, NamedAsFile, ReachLoop, NoDup;
    var start := Scan([UFS_ROOTINO], [UFS_ROOTINO]);
    RootInClosure(g);
    assert [] + start.queue == [UFS_ROOTINO];
    SingleNoDup(UFS_ROOTINO);
    LoopSound(g, BUDGET, start, []);
  }

  /**
   * On any graph, cyclic or not: the walk ends, expands each directory at most once and only directories of the
   * closure, and finds, each once, exactly the root and what the directories it expanded name. It leaves
   * directories unexpanded only after 2^20 of them.
   */
  lemma ReachOnAnyGraph(g: Graph)
    ensures var r := Reach(g);
            && NoDup(r.reachable) && NoDup(r.expanded)
            && (forall d | d in r.expanded :: InClosure(g, d))
            && (forall x :: x in r.reachable <==> NamedBy(g, r.expanded, x))
            && (r.pending != [] ==> |r.expanded| == 0x10_0000)
  {
    hide InClosure, NamedAsFile, Reach, Names;
    ReachSound(g);
    var r := Reach(g);
    var both := r.expanded + r.pending;
    assert forall d | d in r.expanded :: d in both;
    assert UFS_ROOTINO in both;
    assert forall i | 0 <= i < |r.expanded| :: r.expanded[i] == both[i];
  }

  lemma SingleNoDup<T>(x: T)
    ensures NoDup([x])
  {
  }

  /** The budget suffices whenever the closure has at most 2^20 directories. */
  lemma BudgetSuffices(g: Graph, all: seq<U64>)
    requires |all| <= BUDGET && forall d | InClosure(g, d) :: d in all
    ensures Reach(g).pending == []
  {
    hide InClosure, NamedBy, NamedAsFile, Covers, Reach;
    ReachSound(g);
    var r := Reach(g);
    if r.pending != [] {
      NoDupFits(r.expanded + r.pending, all);
    }
  }

  /**
   * Reachability is exact when entries agree on what is a directory and the closure fits the budget: the walk
   * finds precisely the root and every number a live entry names at the end of a DT_DIR chain, each once.
   */
  lemma ReachExact(g: Graph, all: seq<U64>)
    requires TypesAgree(g)
    requires |all| <= BUDGET && forall d | InClosure(g, d) :: d in all
    ensures NoDup(Reach(g).reachable)
    ensures forall x :: x in Reach(g).reachable <==> Named(g, x)
    ensures NoDup(Reach(g).expanded)
    ensures forall d :: d in Reach(g).expanded <==> InClosure(g, d)
  {
    hide InClosure, NamedAsFile, Reach, Names;
    ReachSound(g);
    BudgetSuffices(g, all);
    var r := Reach(g);
    assert r.expanded + r.pending == r.expanded;
    forall a, b | a in r.expanded && Edge(g, a, b)
      ensures b in r.expanded
    {
      EdgeNames(g, a, b);
      assert InClosure(g, a) && b in r.reachable;
    }
    forall d | InClosure(g, d)
      ensures d in r.expanded
    {
      ClosureContained(g, r.expanded, d);
    }
  }

  lemma EdgeNames(g: Graph, a: U64, b: U64)
    requires Edge(g, a, b)
    ensures Names(g, a, b)
  {
  }

  lemma ClosureContained(g: Graph, s: seq<U64>, d: U64)
    requires UFS_ROOTINO in s
    requires forall a, b | a in s && Edge(g, a, b) :: b in s
    requires InClosure(g, d)
    ensures d in s
  {
    hide Edge;
    var path :| Chain(g, path) && path[|path| - 1] == d;
    ClosureInside(g, s, path);
  }

  // ── collect_deleted_dirents ────────────────────────────────────────────────

  /** A residual name worth reporting. */
  predicate Residual(x: DirEntry) {
    x.deleted && x.name != [] && !IsDot(x)
  }

  datatype DeletedName = DeletedName(name: seq<Byte>, ino: U64)

  function DeletedOf(es: seq<DirEntry>): seq<DeletedName> {
    if es == [] then []
    else
      var x := es[|es| - 1];
      DeletedOf(es[..|es| - 1]) + (if Residual(x) then [DeletedName(x.name, x.ino)] else [])
  }

  /** The directories a listing queues, repetitions included. */
  function DirsOf(es: seq<DirEntry>): seq<U64> {
    if es == [] then []
    else
      var x := es[|es| - 1];
      DirsOf(es[..|es| - 1]) + (if Visible(x) && IsDirEntry(x) then [x.ino] else [])
  }

  datatype Collected = Collected(deleted: seq<DeletedName>, visited: seq<U64>, pending: seq<U64>)

  /** The outer loop: every pop costs budget, a visited directory is not expanded again. */
  function CollectLoop(g: Graph, budget: nat, queue: seq<U64>, visited: seq<U64>, deleted: seq<DeletedName>): Collected
    decreases budget
  {
    if queue == [] || budget == 0 then Collected(deleted, visited, queue)
    else
      var d, rest := queue[|queue| - 1], queue[..|queue| - 1];
      if d in visited then CollectLoop(g, budget - 1, rest, visited, deleted)
      else CollectLoop(g, budget - 1, rest + DirsOf(g(d)), visited + [d], deleted + DeletedOf(g(d)))
  }

  function Collect(g: Graph): Collected {
    CollectLoop(g, BUDGET, [UFS_ROOTINO], [], [])
  }

  lemma CollectUnfold(g: Graph, budget: nat, queue: seq<U64>, visited: seq<U64>, deleted: seq<DeletedName>)
    ensures CollectLoop(g, budget, queue, visited, deleted) ==
              if queue == [] || budget == 0 then Collected(deleted, visited, queue)
              else
                var d, rest := queue[|queue| - 1], queue[..|queue| - 1];
                if d in visited then CollectLoop(g, budget - 1, rest, visited, deleted)
                else CollectLoop(g, budget - 1, rest + DirsOf(g(d)), visited + [d], deleted + DeletedOf(g(d)))
  {
  }

  lemma ListingStep(es: seq<DirEntry>, i: nat)
    requires i < |es|
    ensures DeletedOf(es[..i + 1]) ==
              DeletedOf(es[..i]) + (if Residual(es[i]) then [DeletedName(es[i].name, es[i].ino)] else [])
    ensures DirsOf(es[..i + 1]) == DirsOf(es[..i]) + (if Visible(es[i]) && IsDirEntry(es[i]) then [es[i].ino] else [])
  {
    assert es[..i + 1][..i] == es[..i];
  }

  lemma NothingListed()
    ensures DeletedOf([]) == [] && DirsOf([]) == []
  {
  }

  method CollectDeletedDirents(p: Buffer, sb: Superblock) returns (deleted: seq<DeletedName>)
    ensures deleted == Collect(ListingGraph(p, sb)).deleted
  {
    hide ReadInode, DirSlots, DeletedOf, DirsOf, CollectLoop;
    ghost var g := ListingGraph(p, sb);
    deleted := [];
    var visited: seq<U64> := [];
    var queue: seq<U64> := [UFS_ROOTINO];
    var budget := BUDGET;
    while queue != []
      invariant Collect(g) == CollectLoop(g, budget, queue, visited, deleted)
      decreases budget, |queue|
    {
      var dirIno := queue[|queue| - 1];
      CollectUnfold(g, budget, queue, visited, deleted);
      if budget == 0 {
        return;
      }
      queue := queue[..|queue| - 1];
      budget := budget - 1;
      if dirIno in visited {
        continue;
      }
      visited := visited + [dirIno];
      NothingListed();
      var inode := ReadInode(p, sb, dirIno);
      if inode.Failure? {
        assert deleted + [] == deleted && queue + [] == queue;
        continue;
      }
      var entries := ListDirEntries(p, sb, inode.value);
      assert g(dirIno) == entries;
      ghost var deleted0, queue0 := deleted, queue;
      assert entries[..0] == [];
      for i := 0 to |entries|
        invariant deleted == deleted0 + DeletedOf(entries[..i]) && queue == queue0 + DirsOf(entries[..i])
      {
        var x := entries[i];
        ListingStep(entries, i);
        if x.deleted {
          if x.name != [] && !IsDot(x) {
            deleted := deleted + [DeletedName(x.name, x.ino)];
          }
        } else if IsDirEntry(x) && !IsDot(x) {
          queue := queue + [x.ino];
        }
      }
      assert entries[..|entries|] == entries;
    }
    CollectUnfold(g, budget, queue, visited, deleted);
  }

  // ── what the deleted walk reports ──────────────────────────────────────────

  /** The residual names of these directories, in the order they were expanded. */
  function DeletedIn(g: Graph, dirs: seq<U64>): seq<DeletedName> {
    if dirs == [] then [] else DeletedIn(g, dirs[..|dirs| - 1]) + DeletedOf(g(dirs[|dirs| - 1]))
  }

  /** How many directories these listings queue between them. */
  function Pushes(g: Graph, dirs: seq<U64>): nat {
    if dirs == [] then 0 else Pushes(g, dirs[..|dirs| - 1]) + |DirsOf(g(dirs[|dirs| - 1]))|
  }

  lemma Grown(g: Graph, dirs: seq<U64>, d: U64)
    ensures DeletedIn(g, dirs + [d]) == DeletedIn(g, dirs) + DeletedOf(g(d))
    ensures Pushes(g, dirs + [d]) == Pushes(g, dirs) + |DirsOf(g(d))|
  {
    assert (dirs + [d])[..|dirs|] == dirs;
  }

  lemma {:induction false} PushesAppend(g: Graph, a: seq<U64>, b: seq<U64>)
    ensures Pushes(g, a + b) == Pushes(g, a) + Pushes(g, b)
    decreases |b|
  {
    if b == [] {
      assert a + b == a;
    } else {
      assert (a + b)[..|a + b| - 1] == a + b[..|b| - 1];
      PushesAppend(g, a, b[..|b| - 1]);
    }
  }

  /** Distinct directories of a list queue no more than the whole list does. */
  lemma {:induction false} PushesWithin(g: Graph, s: seq<U64>, all: seq<U64>)
    requires NoDup(s) && forall x | x in s :: x in all
    ensures Pushes(g, s) <= Pushes(g, all)
    decreases |s|
  {
    hide Pushes;
    if s == [] {
      Pushes0(g);
    } else {
      var x, front := s[|s| - 1], s[..|s| - 1];
      var a, b := Without(all, x);
      forall y | y in front
        ensures y in a + b
      {
        assert y in all && y != x;
      }
      PushesWithin(g, front, a + b);
      PushesAppend(g, a + [x], b);
      PushesAppend(g, a, [x]);
      PushesAppend(g, a, b);
      PushesAppend(g, front, [x]);
      assert s == front + [x];
    }
  }

  lemma Pushes0(g: Graph)
    ensures Pushes(g, []) == 0
  {
  }

  lemma {:induction false} DirsOfEdges(g: Graph, d: U64, es: seq<DirEntry>, b: U64)
    requires forall x | x in es :: x in g(d)
    ensures b in DirsOf(es) ==> Edge(g, d, b)
    ensures (exists x :: x in es && Visible(x) && IsDirEntry(x) && x.ino == b) ==> b in DirsOf(es)
    decreases |es|
  {
    if es != [] {
      var front, last := es[..|es| - 1], es[|es| - 1];
      assert last in es && forall x | x in front :: x in es;
      DirsOfEdges(g, d, front, b);
      assert es == front + [last];
    }
  }

  /** The directories a listing queues are its edges. */
  lemma DirsAreEdges(g: Graph, d: U64, b: U64)
    ensures b in DirsOf(g(d)) <==> Edge(g, d, b)
  {
    hide DirsOf;
    DirsOfEdges(g, d, g(d), b);
  }

  /** What one slot yields: a name, when it is deleted and named; a directory to walk, when it is live and DT_DIR. */
  lemma OneSlot(x: DirEntry)
    ensures DeletedOf([x]) ==
              if x.deleted && x.name != [] && x.name != [46] && x.name != [46, 46] then [DeletedName(x.name, x.ino)]
              else []
    ensures DirsOf([x]) ==
              if !x.deleted && x.name != [46] && x.name != [46, 46] && x.fileType == DtDirectory then [x.ino] else []
  {
    var es := [x];
    assert es[..0] == [];
    ListingStep(es, 0);
    assert es[..1] == es;
  }

  /** Slots yield what they do one after the other. */
  lemma {:induction false} ListingsAppend(a: seq<DirEntry>, b: seq<DirEntry>)
    ensures DeletedOf(a + b) == DeletedOf(a) + DeletedOf(b)
    ensures DirsOf(a + b) == DirsOf(a) + DirsOf(b)
    decreases |b|
  {
    hide Residual, Visible, IsDirEntry;
    if b == [] {
      assert a + b == a;
    } else {
      assert (a + b)[..|a + b| - 1] == a + b[..|b| - 1];
      ListingsAppend(a, b[..|b| - 1]);
    }
  }

  /** Between two turns, `pops` turns into the walk. */
  ghost predicate CollectInv(g: Graph, pops: nat, queue: seq<U64>, visited: seq<U64>, deleted: seq<DeletedName>) {
    && NoDup(visited)
    && UFS_ROOTINO in visited + queue
    && (forall d | d in visited + queue :: InClosure(g, d))
    && (forall a, b | a in visited && Edge(g, a, b) :: b in visited + queue)
    && deleted == DeletedIn(g, visited)
    && pops + |queue| == 1 + Pushes(g, visited)
  }

  lemma SkipTurn(g: Graph, pops: nat, queue: seq<U64>, visited: seq<U64>, deleted: seq<DeletedName>)
    requires CollectInv(g, pops, queue, visited, deleted) && queue != [] && queue[|queue| - 1] in visited
    ensures CollectInv(g, pops + 1, queue[..|queue| - 1], visited, deleted)
  {
    hide InClosure, Edge, DeletedIn, Pushes, NoDup;
    var rest, d := queue[..|queue| - 1], queue[|queue| - 1];
    assert queue == rest + [d];
    assert forall x :: x in visited + rest <==> x in visited + queue;
  }

  lemma ExpandTurn(g: Graph, pops: nat, queue: seq<U64>, visited: seq<U64>, deleted: seq<DeletedName>)
    requires CollectInv(g, pops, queue, visited, deleted) && queue != [] && queue[|queue| - 1] !in visited
    ensures var rest, d := queue[..|queue| - 1], queue[|queue| - 1];
            CollectInv(g, pops + 1, rest + DirsOf(g(d)), visited + [d], deleted + DeletedOf(g(d)))
  {
    hide InClosure, Edge, DeletedIn, Pushes, NoDup, DirsOf, DeletedOf;
    var rest, d := queue[..|queue| - 1], queue[|queue| - 1];
    var dirs := DirsOf(g(d));
    NoDupPush<U64>(visited, d);
    Grown(g, visited, d);
    assert queue == rest + [d] && d in visited + queue;
    forall x
      ensures x in visited + [d] + (rest + dirs) <==> x in visited + queue || x in dirs
    {
    }
    forall b
      ensures b in dirs <==> Edge(g, d, b)
      ensures b in dirs ==> InClosure(g, b)
    {
      DirsAreEdges(g, d, b);
      if b in dirs {
        ClosureStep(g, d, b);
      }
    }
  }

  lemma {:induction false} CollectLoopInv(g: Graph, budget: nat, pops: nat, queue: seq<U64>, visited: seq<U64>,
                                          deleted: seq<DeletedName>)
    requires CollectInv(g, pops, queue, visited, deleted)
    ensures var r := CollectLoop(g, budget, queue, visited, deleted);
            exists n: nat | n <= pops + budget && (r.pending != [] ==> n == pops + budget) ::
              CollectInv(g, n, r.pending, r.visited, r.deleted)
    decreases budget
  {
    hide CollectInv, CollectLoop;
    CollectUnfold(g, budget, queue, visited, deleted);
    if queue != [] && budget > 0 {
      var rest, d := queue[..|queue| - 1], queue[|queue| - 1];
      if d in visited {
        SkipTurn(g, pops, queue, visited, deleted);
        CollectLoopInv(g, budget - 1, pops + 1, rest, visited, deleted);
      } else {
        ExpandTurn(g, pops, queue, visited, deleted);
        CollectLoopInv(g, budget - 1, pops + 1, rest + DirsOf(g(d)), visited + [d], deleted + DeletedOf(g(d)));
      }
    }
  }

  /**
   * On any graph: each directory is expanded at most once, only directories of the closure are, and what is
   * reported is every residual slot of every expanded directory, once and in order.
   */
  lemma CollectOnAnyGraph(g: Graph)
    ensures var r := Collect(g);
            && NoDup(r.visited)
            && (forall d | d in r.visited :: InClosure(g, d))
            && r.deleted == DeletedIn(g, r.visited)
  {
    hide InClosure, CollectLoop, DeletedIn, Edge;
    CollectStart(g);
    CollectLoopInv(g, BUDGET, 0, [UFS_ROOTINO], [], []);
    var r := Collect(g);
    assert forall d | d in r.visited :: d in r.visited + r.pending;
  }

  lemma CollectStart(g: Graph)
    ensures CollectInv(g, 0, [UFS_ROOTINO], [], [])
  {
    hide InClosure;
    RootInClosure(g);
    assert [] + [UFS_ROOTINO] == [UFS_ROOTINO];
  }

  /** When the closure's listings queue fewer than 2^20 directories in all, the whole closure is expanded. */
  lemma CollectExact(g: Graph, all: seq<U64>)
    requires 1 + Pushes(g, all) <= BUDGET && forall d | InClosure(g, d) :: d in all
    ensures NoDup(Collect(g).visited)
    ensures forall d :: d in Collect(g).visited <==> InClosure(g, d)
    ensures Collect(g).deleted == DeletedIn(g, Collect(g).visited)
  {
    hide InClosure, CollectLoop, DeletedIn, Edge, Pushes, NoDup;
    CollectStart(g);
    CollectLoopInv(g, BUDGET, 0, [UFS_ROOTINO], [], []);
    var r := Collect(g);
    assert forall d | d in r.visited :: d in r.visited + r.pending;
    PushesWithin(g, r.visited, all);
    assert r.pending == [];
    assert r.visited + r.pending == r.visited;
    forall d | InClosure(g, d)
      ensures d in r.visited
    {
      ClosureContained(g, r.visited, d);
    }
  }

  /** The budget lasts precisely when the root and all that the closure queues, repeats included, fit in 2^20. */
  lemma CollectFitsIff(g: Graph, all: seq<U64>)
    requires NoDup(all) && forall d :: d in all <==> InClosure(g, d)
    ensures Collect(g).pending == [] <==> 1 + Pushes(g, all) <= 0x10_0000
  {
    hide InClosure, CollectLoop, DeletedIn, Edge, Pushes, NoDup;
    CollectStart(g);
    CollectLoopInv(g, BUDGET, 0, [UFS_ROOTINO], [], []);
    var r := Collect(g);
    assert forall d | d in r.visited :: d in r.visited + r.pending;
    PushesWithin(g, r.visited, all);
    if r.pending == [] {
      assert r.visited + r.pending == r.visited;
      forall d | d in all
        ensures d in r.visited
      {
        ClosureContained(g, r.visited, d);
      }
      PushesWithin(g, all, r.visited);
    }
  }

  /** Under type agreement and within budget the two walks expand the same directories. */
  lemma WalksAgree(g: Graph, all: seq<U64>)
    requires TypesAgree(g)
    requires |all| <= BUDGET && 1 + Pushes(g, all) <= BUDGET && forall d | InClosure(g, d) :: d in all
    ensures forall d :: d in Reach(g).expanded <==> d in Collect(g).visited
  {
    hide InClosure, Reach, Collect, Pushes, TypesAgree;
    ReachExact(g, all);
    CollectExact(g, all);
  }

  // ── what the walk depends on ───────────────────────────────────────────────

  lemma {:induction false} VisitedGrows(g: Graph, budget: nat, queue: seq<U64>, visited: seq<U64>, deleted: seq<DeletedName>)
    ensures visited <= CollectLoop(g, budget, queue, visited, deleted).visited
    decreases budget
  {
    hide DirsOf, DeletedOf;
    if queue != [] && budget > 0 {
      var rest, d := queue[..|queue| - 1], queue[|queue| - 1];
      if d in visited {
        VisitedGrows(g, budget - 1, rest, visited, deleted);
      } else {
        VisitedGrows(g, budget - 1, rest + DirsOf(g(d)), visited + [d], deleted + DeletedOf(g(d)));
      }
    }
  }

  lemma {:induction false} CollectLoopSame(g: Graph, h: Graph, budget: nat, queue: seq<U64>, visited: seq<U64>,
                                           a: seq<DeletedName>, b: seq<DeletedName>)
    requires forall d | d in CollectLoop(g, budget, queue, visited, a).visited :: DirsOf(h(d)) == DirsOf(g(d))
    ensures CollectLoop(h, budget, queue, visited, b).visited == CollectLoop(g, budget, queue, visited, a).visited
    decreases budget
  {
    hide DirsOf, DeletedOf, CollectLoop;
    CollectUnfold(g, budget, queue, visited, a);
    CollectUnfold(h, budget, queue, visited, b);
    if queue != [] && budget > 0 {
      var rest, d := queue[..|queue| - 1], queue[|queue| - 1];
      if d in visited {
        CollectLoopSame(g, h, budget - 1, rest, visited, a, b);
      } else {
        var next := rest + DirsOf(g(d));
        VisitedGrows(g, budget - 1, next, visited + [d], a + DeletedOf(g(d)));
        InPrefix(visited + [d], CollectLoop(g, budget - 1, next, visited + [d], a + DeletedOf(g(d))).visited, d);
        CollectLoopSame(g, h, budget - 1, next, visited + [d], a + DeletedOf(g(d)), b + DeletedOf(h(d)));
      }
    }
  }

  lemma InPrefix<T>(a: seq<T>, b: seq<T>, x: T)
    requires a <= b && x in a
    ensures x in b
  {
    var i :| 0 <= i < |a| && a[i] == x;
    assert b[i] == x;
  }

  /** Two graphs whose expanded directories queue the same directories are walked alike. */
  lemma CollectSame(g: Graph, h: Graph)
    requires forall d | d in Collect(g).visited :: DirsOf(h(d)) == DirsOf(g(d))
    ensures Collect(h).visited == Collect(g).visited
  {
    hide DirsOf, CollectLoop;
    CollectLoopSame(g, h, BUDGET, [UFS_ROOTINO], [], [], []);
  }

  lemma {:induction false} DeletedInSame(g: Graph, h: Graph, dirs: seq<U64>)
    requires forall d | d in dirs :: DeletedOf(h(d)) == DeletedOf(g(d))
    ensures DeletedIn(h, dirs) == DeletedIn(g, dirs)
    decreases |dirs|
  {
    hide DeletedOf;
    if dirs != [] {
      DeletedInSame(g, h, dirs[..|dirs| - 1]);
    }
  }

  /** An edit that also keeps the residual slots of every expanded directory keeps all that is collected. */
  lemma CollectedSame(g: Graph, h: Graph)
    requires forall d | d in Collect(g).visited :: DirsOf(h(d)) == DirsOf(g(d)) && DeletedOf(h(d)) == DeletedOf(g(d))
    ensures Collect(h).visited == Collect(g).visited && Collect(h).deleted == Collect(g).deleted
  {
    hide Collect, DirsOf, DeletedOf;
    CollectSame(g, h);
    CollectOnAnyGraph(g);
    CollectOnAnyGraph(h);
    DeletedInSame(g, h, Collect(g).visited);
  }

  lemma {:induction false} DeletedOfAppend(a: seq<DirEntry>, b: seq<DirEntry>)
    ensures DeletedOf(a + b) == DeletedOf(a) + DeletedOf(b)
    decreases |b|
  {
    hide Residual;
    if b == [] {
      assert a + b == a;
    } else {
      assert (a + b)[..|a + b| - 1] == a + b[..|b| - 1];
      DeletedOfAppend(a, b[..|b| - 1]);
    }
  }

  /** Dropping a slot that names neither a directory nor a residue drops nothing the walk looks for. */
  lemma SlotDropped(a: seq<DirEntry>, x: DirEntry, b: seq<DirEntry>)
    requires !Residual(x) && !(Visible(x) && IsDirEntry(x))
    ensures DirsOf(a + b) == DirsOf(a + [x] + b) && DeletedOf(a + b) == DeletedOf(a + [x] + b)
  {
    hide Residual, Visible, IsDirEntry;
    DirsOfAppend(a + [x], b);
    DirsOfAppend(a, [x]);
    DirsOfAppend(a, b);
    DirsOfOne(x);
    DeletedOfAppend(a + [x], b);
    DeletedOfAppend(a, [x]);
    DeletedOfAppend(a, b);
    assert [x][..0] == [] && DeletedOf([x]) == [];
  }

  lemma {:induction false} DeletedInMember(g: Graph, dirs: seq<U64>, d: U64, n: DeletedName)
    requires d in dirs && n in DeletedOf(g(d))
    ensures n in DeletedIn(g, dirs)
    decreases |dirs|
  {
    hide DeletedOf;
    var front := dirs[..|dirs| - 1];
    if d != dirs[|dirs| - 1] {
      assert d in front;
      DeletedInMember(g, front, d, n);
    }
  }

  lemma {:induction false} DirsOfAppend(a: seq<DirEntry>, b: seq<DirEntry>)
    ensures DirsOf(a + b) == DirsOf(a) + DirsOf(b)
    decreases |b|
  {
    if b == [] {
      assert a + b == a;
    } else {
      assert (a + b)[..|a + b| - 1] == a + b[..|b| - 1];
      DirsOfAppend(a, b[..|b| - 1]);
    }
  }

  /** Replacing one slot that is not a live directory by another such slot queues the same directories. */
  lemma DirsOfReplace(es: seq<DirEntry>, k: nat, x: DirEntry)
    requires k < |es| && !(Visible(es[k]) && IsDirEntry(es[k])) && !(Visible(x) && IsDirEntry(x))
    ensures DirsOf(es[k := x]) == DirsOf(es)
  {
    hide DirsOf;
    var a, b := es[..k], es[k + 1..];
    assert es == a + ([es[k]] + b) && es[k := x] == a + ([x] + b);
    DirsOfAppend(a, [es[k]] + b);
    DirsOfAppend(a, [x] + b);
    DirsOfAppend([es[k]], b);
    DirsOfAppend([x], b);
    DirsOfOne(es[k]);
    DirsOfOne(x);
  }

  lemma {:induction false} DirsOfNone(es: seq<DirEntry>)
    requires forall x | x in es :: !(Visible(x) && IsDirEntry(x))
    ensures DirsOf(es) == []
    decreases |es|
  {
    hide Visible, IsDirEntry;
    if es != [] {
      assert es[|es| - 1] in es && forall x | x in es[..|es| - 1] :: x in es;
      DirsOfNone(es[..|es| - 1]);
    }
  }

  /** A root without subdirectories is the only directory visited. */
  lemma CollectLeaf(g: Graph)
    requires DirsOf(g(UFS_ROOTINO)) == []
    ensures Collect(g).visited == [UFS_ROOTINO]
  {
    hide CollectLoop, DeletedOf, DirsOf;
    var queue, deleted := [UFS_ROOTINO], DeletedOf(g(UFS_ROOTINO));
    CollectUnfold(g, BUDGET, queue, [], []);
    assert queue[..0] + [] == [] && [] + queue == queue && [] + deleted == deleted;
    CollectUnfold(g, BUDGET - 1, [], queue, deleted);
  }

  lemma DirsOfOne(x: DirEntry)
    ensures DirsOf([x]) == if Visible(x) && IsDirEntry(x) then [x.ino] else []
  {
    assert [x][..0] == [];
  }
}
