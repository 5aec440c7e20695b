/**
 * Exactly when `reachable_inodes` is complete (forensic/src/lib.rs): it queues a number on its first sighting only, so
 * it can miss directories; whether it does is decided by a plain depth-first walk of the DT_DIR entries.
 */
module Completeness {
  import opened Bytes
  import opened Superblocks
  import opened Directory
  import opened Traversal

  // ── exactly when the walk is complete ──────────────────────────────────────

  /** The slots a walk meets when it expands `dirs` in this order. */
  ghost function Seen(g: Graph, dirs: seq<U64>): seq<DirEntry> {
    if dirs == [] then [] else Seen(g, dirs[..|dirs| - 1]) + g(dirs[|dirs| - 1])
  }

  /** The first live entry that names `b`. */
  ghost function FirstSighting(es: seq<DirEntry>, b: U64): Option<DirEntry> {
    if es == [] then None
    else
      var x := es[|es| - 1];
      match FirstSighting(es[..|es| - 1], b)
      case Some(y) => Some(y)
      case None => if Visible(x) && x.ino == b then Some(x) else None
  }

  ghost predicate FirstSeenAsDir(es: seq<DirEntry>, b: U64) {
    match FirstSighting(es, b)
    case None => false
    case Some(x) => IsDirEntry(x)
  }

  /** No DT_DIR entry is met after another kind of entry for the same number. */
  ghost predicate DirsSeenFirst(es: seq<DirEntry>) {
    forall x | x in es && Visible(x) && IsDirEntry(x) && x.ino != UFS_ROOTINO :: FirstSeenAsDir(es, x.ino)
  }

  /** The walk so far has found what its slots name, and queued what they name first as a directory. */
  ghost predicate Sighted(es: seq<DirEntry>, st: Scan, expanded: seq<U64>) {
    && (forall b: U64 :: b in st.reachable <==> b == UFS_ROOTINO || FirstSighting(es, b).Some?)
    && (forall b: U64 :: b in expanded + st.queue <==> b == UFS_ROOTINO || FirstSeenAsDir(es, b))
  }

  lemma SightingStep(es: seq<DirEntry>, x: DirEntry, b: U64)
    ensures FirstSighting(es + [x], b) ==
              if FirstSighting(es, b).Some? then FirstSighting(es, b)
              else if Visible(x) && x.ino == b then Some(x)
              else None
  {
    assert (es + [x])[..|es|] == es;
  }

  lemma SeenGrows(g: Graph, dirs: seq<U64>, d: U64)
    ensures Seen(g, dirs + [d]) == Seen(g, dirs) + g(d)
  {
    assert (dirs + [d])[..|dirs|] == dirs;
  }

  lemma PopSighted(es: seq<DirEntry>, st: Scan, expanded: seq<U64>)
    requires Sighted(es, st, expanded) && st.queue != []
    ensures Sighted(es, Scan(st.reachable, st.queue[..|st.queue| - 1]), expanded + [st.queue[|st.queue| - 1]])
  {
    hide FirstSighting, FirstSeenAsDir;
    var d, rest := st.queue[|st.queue| - 1], st.queue[..|st.queue| - 1];
    assert st.queue == rest + [d];
    assert forall b :: b in expanded + [d] + rest <==> b in expanded + st.queue;
  }

  lemma SeeEntrySighted(es: seq<DirEntry>, st: Scan, expanded: seq<U64>, x: DirEntry)
    requires Sighted(es, st, expanded)
    ensures Sighted(es + [x], SeeEntry(x, st), expanded)
  {
    hide FirstSighting, Visible;
    var next := SeeEntry(x, st);
    assert forall b :: b in expanded + st.queue + [x.ino] <==> b in expanded + st.queue || b == x.ino;
    assert expanded + (st.queue + [x.ino]) == expanded + st.queue + [x.ino];
    forall b: U64
      ensures b in next.reachable <==> b == UFS_ROOTINO || FirstSighting(es + [x], b).Some?
      ensures b in expanded + next.queue <==> b == UFS_ROOTINO || FirstSeenAsDir(es + [x], b)
    {
      SightingStep(es, x, b);
    }
  }

  lemma {:induction false} ScanSighted(es: seq<DirEntry>, st: Scan, expanded: seq<U64>, more: seq<DirEntry>)
    requires Sighted(es, st, expanded)
    ensures Sighted(es + more, ScanReach(more, st), expanded)
    decreases |more|
  {
    hide Sighted, SeeEntry;
    if more == [] {
      assert es + more == es;
    } else {
      SeeEntrySighted(es, st, expanded, more[0]);
      ScanSighted(es + [more[0]], SeeEntry(more[0], st), expanded, more[1..]);
      assert es + [more[0]] + more[1..] == es + more;
    }
  }

  lemma {:induction false} LoopSighted(g: Graph, budget: nat, st: Scan, expanded: seq<U64>)
    requires Sighted(Seen(g, expanded), st, expanded)
    ensures var r := ReachLoop(g, budget, st, expanded);
            Sighted(Seen(g, r.expanded), Scan(r.reachable, r.pending), r.expanded)
    decreases budget
  {
    hide ScanReach, Sighted, Seen;
    if st.queue != [] && budget > 0 {
      var d, rest := st.queue[|st.queue| - 1], st.queue[..|st.queue| - 1];
      var es := Seen(g, expanded);
      SeenGrows(g, expanded, d);
      PopSighted(es, st, expanded);
      ScanSighted(es, Scan(st.reachable, rest), expanded + [d], g(d));
      LoopSighted(g, budget - 1, ScanReach(g(d), Scan(st.reachable, rest)), expanded + [d]);
    }
  }

  lemma {:induction false} SeenMember(g: Graph, dirs: seq<U64>, x: DirEntry)
    ensures x in Seen(g, dirs) <==> exists d :: d in dirs && x in g(d)
    decreases |dirs|
  {
    if dirs != [] {
      var front, last := dirs[..|dirs| - 1], dirs[|dirs| - 1];
      SeenMember(g, front, x);
      assert dirs == front + [last];
    }
  }

  lemma ReachSighted(g: Graph)
    ensures var r := Reach(g); Sighted(Seen(g, r.expanded), Scan(r.reachable, r.pending), r.expanded)
  {
    hide ReachLoop;
    var start := Scan([UFS_ROOTINO], [UFS_ROOTINO]);
    assert [] + start.queue == [UFS_ROOTINO];
    LoopSighted(g, BUDGET, start, []);
  }

  /** The same in terms of the walk's own order; `CompleteWithinBudget` restates it on the graph alone. */
  lemma CompleteByOwnOrder(g: Graph)
    requires Reach(g).pending == []
    ensures var r := Reach(g);
            && ((forall d :: d in r.expanded <==> InClosure(g, d)) <==> DirsSeenFirst(Seen(g, r.expanded)))
            && (DirsSeenFirst(Seen(g, r.expanded)) ==> forall x :: x in r.reachable <==> Named(g, x))
  {
    hide InClosure, Reach, Seen, FirstSeenAsDir, Names, Visible;
    ReachOnAnyGraph(g);
    ReachSighted(g);
    var r := Reach(g);
    var es := Seen(g, r.expanded);
    assert r.expanded + r.pending == r.expanded;
    RootInClosure(g);
    if DirsSeenFirst(es) {
      forall a, b | a in r.expanded && Edge(g, a, b)
        ensures b in r.expanded
      {
        var x :| x in g(a) && Visible(x) && IsDirEntry(x) && x.ino == b;
        SeenMember(g, r.expanded, x);
      }
      forall d | InClosure(g, d)
        ensures d in r.expanded
      {
        ClosureContained(g, r.expanded, d);
      }
    }
    if forall d :: d in r.expanded <==> InClosure(g, d) {
      forall x | x in es && Visible(x) && IsDirEntry(x) && x.ino != UFS_ROOTINO
        ensures FirstSeenAsDir(es, x.ino)
      {
        SeenMember(g, r.expanded, x);
        var a :| a in r.expanded && x in g(a);
        assert Edge(g, a, x.ino);
        ClosureStep(g, a, x.ino);
      }
    }
  }

  // ── the plain walk ─────────────────────────────────────────────────────────

  /** Queue, in order, every directory these slots name that is not yet expanded or queued. */
  ghost function QueueDirs(es: seq<DirEntry>, expanded: seq<U64>, queue: seq<U64>): seq<U64>
    decreases |es|
  {
    if es == [] then queue else QueueDirs(es[1..], expanded, QueueDir(es[0], expanded, queue))
  }

  ghost function QueueDir(x: DirEntry, expanded: seq<U64>, queue: seq<U64>): seq<U64> {
    if Visible(x) && IsDirEntry(x) && x.ino !in expanded + queue then queue + [x.ino] else queue
  }

  /** Depth first over DT_DIR entries, at most `turns` directories; the order in which they are expanded. */
  ghost function DepthFirstLoop(g: Graph, turns: nat, queue: seq<U64>, expanded: seq<U64>): seq<U64>
    decreases turns
  {
    if queue == [] || turns == 0 then expanded
    else
      var d, rest := queue[|queue| - 1], queue[..|queue| - 1];
      DepthFirstLoop(g, turns - 1, QueueDirs(g(d), expanded + [d], rest), expanded + [d])
  }

  ghost function DepthFirst(g: Graph): seq<U64> {
    DepthFirstLoop(g, BUDGET, [UFS_ROOTINO], [])
  }

  // ── first sightings only accumulate ────────────────────────────────────────

  lemma {:induction false} SightingKept(es: seq<DirEntry>, more: seq<DirEntry>, b: U64)
    ensures FirstSighting(es, b).Some? ==> FirstSighting(es + more, b) == FirstSighting(es, b)
    decreases |more|
  {
    hide FirstSighting;
    if more == [] {
      assert es + more == es;
    } else {
      var front, last := more[..|more| - 1], more[|more| - 1];
      SightingKept(es, front, b);
      SightingStep(es + front, last, b);
      assert es + more == es + front + [last];
    }
  }

  lemma {:induction false} SightedIfPresent(es: seq<DirEntry>, x: DirEntry)
    requires x in es && Visible(x)
    ensures FirstSighting(es, x.ino).Some?
    decreases |es|
  {
    hide Visible;
    var front, last := es[..|es| - 1], es[|es| - 1];
    assert es == front + [last];
    if x in front {
      SightedIfPresent(front, x);
    }
  }

  /** What is met first stays first: the condition passes to every prefix. */
  lemma DirsFirstPrefix(es: seq<DirEntry>, more: seq<DirEntry>)
    requires DirsSeenFirst(es + more)
    ensures DirsSeenFirst(es)
  {
    hide FirstSighting, Visible;
    forall x | x in es && Visible(x) && IsDirEntry(x) && x.ino != UFS_ROOTINO
      ensures FirstSeenAsDir(es, x.ino)
    {
      assert x in es + more;
      SightedIfPresent(es, x);
      SightingKept(es, more, x.ino);
    }
  }

  lemma {:induction false} SeenPrefix(g: Graph, a: seq<U64>, b: seq<U64>)
    requires a <= b
    ensures Seen(g, a) <= Seen(g, b)
    decreases |b|
  {
    if a != b {
      assert a <= b[..|b| - 1];
      SeenPrefix(g, a, b[..|b| - 1]);
    } else {
      assert Seen(g, a) == Seen(g, b);
    }
  }

  lemma DirsFirstSoFar(g: Graph, a: seq<U64>, b: seq<U64>)
    requires a <= b && DirsSeenFirst(Seen(g, b))
    ensures DirsSeenFirst(Seen(g, a))
  {
    hide Seen, DirsSeenFirst;
    SeenPrefix(g, a, b);
    var rest := Seen(g, b)[|Seen(g, a)|..];
    assert Seen(g, b) == Seen(g, a) + rest;
    DirsFirstPrefix(Seen(g, a), rest);
  }

  // ── the two walks in step ──────────────────────────────────────────────────

  /** While no directory is met late, one entry does to both queues the same. */
  lemma EntryInStep(es: seq<DirEntry>, st: Scan, expanded: seq<U64>, x: DirEntry)
    requires Sighted(es, st, expanded) && DirsSeenFirst(es + [x])
    ensures SeeEntry(x, st).queue == QueueDir(x, expanded, st.queue)
  {
    hide FirstSighting, Visible;
    if Visible(x) && IsDirEntry(x) {
      SightingStep(es, x, x.ino);
      assert (es + [x])[|es|] == x;
      assert x in es + [x];
    }
  }

  lemma {:induction false} ScanInStep(es: seq<DirEntry>, st: Scan, expanded: seq<U64>, more: seq<DirEntry>)
    requires Sighted(es, st, expanded) && DirsSeenFirst(es + more)
    ensures ScanReach(more, st).queue == QueueDirs(more, expanded, st.queue)
    decreases |more|
  {
    hide Sighted, SeeEntry, QueueDir, DirsSeenFirst;
    if more != [] {
      var x := more[0];
      assert es + more == es + [x] + more[1..];
      DirsFirstPrefix(es + [x], more[1..]);
      EntryInStep(es, st, expanded, x);
      SeeEntrySighted(es, st, expanded, x);
      ScanInStep(es + [x], SeeEntry(x, st), expanded, more[1..]);
    }
  }

  lemma {:induction false} ReachExtends(g: Graph, budget: nat, st: Scan, expanded: seq<U64>)
    ensures expanded <= ReachLoop(g, budget, st, expanded).expanded
    decreases budget
  {
    hide ScanReach;
    if st.queue != [] && budget > 0 {
      var d, rest := st.queue[|st.queue| - 1], st.queue[..|st.queue| - 1];
      ReachExtends(g, budget - 1, ScanReach(g(d), Scan(st.reachable, rest)), expanded + [d]);
    }
  }

  lemma {:induction false} DepthFirstExtends(g: Graph, turns: nat, queue: seq<U64>, expanded: seq<U64>)
    ensures expanded <= DepthFirstLoop(g, turns, queue, expanded)
    decreases turns
  {
    hide QueueDirs;
    if queue != [] && turns > 0 {
      var d, rest := queue[|queue| - 1], queue[..|queue| - 1];
      DepthFirstExtends(g, turns - 1, QueueDirs(g(d), expanded + [d], rest), expanded + [d]);
    }
  }

  /** If either walk meets directories first in the end, it has done so up to its next turn. */
  lemma FirstSoFar(g: Graph, budget: nat, st: Scan, expanded: seq<U64>)
    requires st.queue != [] && budget > 0
    requires || DirsSeenFirst(Seen(g, ReachLoop(g, budget, st, expanded).expanded))
             || DirsSeenFirst(Seen(g, DepthFirstLoop(g, budget, st.queue, expanded)))
    ensures DirsSeenFirst(Seen(g, expanded + [st.queue[|st.queue| - 1]]))
  {
    hide ScanReach, QueueDirs, Seen, DirsSeenFirst;
    var d, rest := st.queue[|st.queue| - 1], st.queue[..|st.queue| - 1];
    var after := expanded + [d];
    ReachExtends(g, budget - 1, ScanReach(g(d), Scan(st.reachable, rest)), after);
    DepthFirstExtends(g, budget - 1, QueueDirs(g(d), after, rest), after);
    if DirsSeenFirst(Seen(g, ReachLoop(g, budget, st, expanded).expanded)) {
      DirsFirstSoFar(g, after, ReachLoop(g, budget, st, expanded).expanded);
    } else {
      DirsFirstSoFar(g, after, DepthFirstLoop(g, budget, st.queue, expanded));
    }
  }

  /** When either walk meets directories first, they expand the same directories in the same order. */
  lemma {:induction false} LoopsInStep(g: Graph, budget: nat, st: Scan, expanded: seq<U64>)
    requires Sighted(Seen(g, expanded), st, expanded)
    requires || DirsSeenFirst(Seen(g, ReachLoop(g, budget, st, expanded).expanded))
             || DirsSeenFirst(Seen(g, DepthFirstLoop(g, budget, st.queue, expanded)))
    ensures ReachLoop(g, budget, st, expanded).expanded == DepthFirstLoop(g, budget, st.queue, expanded)
    decreases budget
  {
    hide ScanReach, QueueDirs, Sighted, Seen, DirsSeenFirst;
    if st.queue != [] && budget > 0 {
      var d, rest := st.queue[|st.queue| - 1], st.queue[..|st.queue| - 1];
      var popped, es, after := Scan(st.reachable, rest), Seen(g, expanded), expanded + [d];
      var next := ScanReach(g(d), popped);
      FirstSoFar(g, budget, st, expanded);
      SeenGrows(g, expanded, d);
      PopSighted(es, st, expanded);
      ScanInStep(es, popped, after, g(d));
      ScanSighted(es, popped, after, g(d));
      LoopsInStep(g, budget - 1, next, after);
    }
  }

  /** The condition on the graph: a depth-first walk of DT_DIR entries meets each directory first as a directory. */
  ghost predicate DirectoriesComeFirst(g: Graph) {
    DirsSeenFirst(Seen(g, DepthFirst(g)))
  }

  lemma WalksInStep(g: Graph)
    requires DirectoriesComeFirst(g) || DirsSeenFirst(Seen(g, Reach(g).expanded))
    ensures Reach(g).expanded == DepthFirst(g)
  {
    hide ReachLoop, DepthFirstLoop, DirsSeenFirst;
    var start := Scan([UFS_ROOTINO], [UFS_ROOTINO]);
    assert [] + start.queue == [UFS_ROOTINO];
    LoopsInStep(g, BUDGET, start, []);
  }

  /** When the closure fits the budget, the walk expands all of it exactly when directories come first. */
  lemma CompleteWithinBudget(g: Graph, all: seq<U64>)
    requires |all| <= BUDGET && forall d | InClosure(g, d) :: d in all
    ensures (forall d :: d in Reach(g).expanded <==> InClosure(g, d)) <==> DirectoriesComeFirst(g)
    ensures DirectoriesComeFirst(g) ==> forall x :: x in Reach(g).reachable <==> Named(g, x)
  {
    hide InClosure, Reach, Seen, DepthFirst, DirsSeenFirst, Named;
    BudgetSuffices(g, all);
    CompleteByOwnOrder(g);
    if DirectoriesComeFirst(g) || DirsSeenFirst(Seen(g, Reach(g).expanded)) {
      WalksInStep(g);
    }
  }

  lemma {:induction false} ReachBounded(g: Graph, budget: nat, st: Scan, expanded: seq<U64>)
    ensures |ReachLoop(g, budget, st, expanded).expanded| <= |expanded| + budget
    decreases budget
  {
    hide ScanReach;
    if st.queue != [] && budget > 0 {
      var d, rest := st.queue[|st.queue| - 1], st.queue[..|st.queue| - 1];
      ReachBounded(g, budget - 1, ScanReach(g(d), Scan(st.reachable, rest)), expanded + [d]);
    }
  }

  /**
   * `reachable_inodes` expands every directory of the closure if and only if there are at most 2^20 of them and a
   * plain depth-first walk of the DT_DIR entries never meets a number as a directory after meeting it as something
   * else. Everything named in the closure is then found.
   */
  lemma ReachCompleteIff(g: Graph, all: seq<U64>)
    requires NoDup(all) && forall d :: d in all <==> InClosure(g, d)
    ensures (forall d :: d in Reach(g).expanded <==> InClosure(g, d)) <==> |all| <= 0x10_0000 && DirectoriesComeFirst(g)
    ensures |all| <= 0x10_0000 && DirectoriesComeFirst(g) ==> forall x :: x in Reach(g).reachable <==> Named(g, x)
  {
    hide InClosure, ReachLoop, DirectoriesComeFirst, Named, NoDup;
    if |all| <= BUDGET {
      CompleteWithinBudget(g, all);
    } else if forall d :: d in Reach(g).expanded <==> InClosure(g, d) {
      NoDupFits(all, Reach(g).expanded);
      ReachBounded(g, BUDGET, Scan([UFS_ROOTINO], [UFS_ROOTINO]), []);
      assert false;
    }
  }

  /** Agreement on types is enough for it. */
  lemma AgreementSuffices(g: Graph, all: seq<U64>)
    requires TypesAgree(g)
    requires |all| <= BUDGET && forall d | InClosure(g, d) :: d in all
    ensures DirectoriesComeFirst(g)
  {
    hide InClosure, Reach, TypesAgree, DirectoriesComeFirst, Named;
    ReachExact(g, all);
    CompleteWithinBudget(g, all);
  }

  // ── an incomplete walk ─────────────────────────────────────────────────────

  /** The root names a number as a file, then as a directory. */
  ghost predicate MetAsFileFirst(g: Graph, dots: seq<DirEntry>, asFile: DirEntry, asDir: DirEntry) {
    && (forall x | x in dots :: !Visible(x))
    && g(UFS_ROOTINO) == dots + [asFile, asDir]
    && Visible(asFile) && Visible(asDir) && asFile.ino == asDir.ino && asFile.ino != UFS_ROOTINO
    && !IsDirEntry(asFile) && IsDirEntry(asDir)
  }

  lemma OnlyRootExpanded(g: Graph, dots: seq<DirEntry>, asFile: DirEntry, asDir: DirEntry)
    requires MetAsFileFirst(g, dots, asFile, asDir)
    ensures InClosure(g, asFile.ino) && asFile.ino != UFS_ROOTINO
    ensures Reach(g).reachable == [UFS_ROOTINO, asFile.ino] && Reach(g).expanded == [UFS_ROOTINO]
  {
    hide ScanReach, ReachLoop, InClosure, Visible, IsDirEntry;
    var root, found := [UFS_ROOTINO], [UFS_ROOTINO, asFile.ino];
    assert g(UFS_ROOTINO)[|dots| + 1] == asDir && asDir in g(UFS_ROOTINO);
    RootInClosure(g);
    assert Edge(g, UFS_ROOTINO, asDir.ino);
    ClosureStep(g, UFS_ROOTINO, asDir.ino);
    HiddenScan(dots, asFile, asDir);
    ReachUnfold(g, BUDGET, Scan(root, root), []);
    assert root[..0] == [] && [] + root == root;
    ReachUnfold(g, BUDGET - 1, Scan(found, []), root);
  }

  /**
   * The failing case: a number met first as a file is recorded but never descended into, so what a later DT_DIR entry
   * for it leads to is missed.
   */
  lemma FirstSightingHides(g: Graph, dots: seq<DirEntry>, asFile: DirEntry, asDir: DirEntry, hidden: U64)
    requires MetAsFileFirst(g, dots, asFile, asDir)
    requires Names(g, asFile.ino, hidden) && hidden !in {UFS_ROOTINO, asFile.ino}
    ensures Named(g, hidden) && hidden !in Reach(g).reachable
  {
    hide InClosure, Reach, MetAsFileFirst, Names;
    OnlyRootExpanded(g, dots, asFile, asDir);
  }

  /** A directory that is not expanded may name nothing new: then no number is missed all the same. */
  lemma NothingNewIsMissed(g: Graph, dots: seq<DirEntry>, asFile: DirEntry, asDir: DirEntry)
    requires MetAsFileFirst(g, dots, asFile, asDir)
    requires forall d, x: U64 | Names(g, d, x) :: d == UFS_ROOTINO && x == asFile.ino
    ensures !DirectoriesComeFirst(g)
    ensures forall x :: x in Reach(g).reachable <==> Named(g, x)
  {
    hide InClosure, Reach, MetAsFileFirst, Names, DirectoriesComeFirst;
    OnlyRootExpanded(g, dots, asFile, asDir);
    ReachOnAnyGraph(g);
    var all := [UFS_ROOTINO, asFile.ino];
    forall a, b | a in all && Edge(g, a, b)
      ensures b in all
    {
      EdgeNames(g, a, b);
    }
    forall d | InClosure(g, d)
      ensures d in all
    {
      ClosureContained(g, all, d);
    }
    RootInClosure(g);
    CompleteWithinBudget(g, all);
    assert asFile.ino !in Reach(g).expanded;
  }

  lemma HiddenScan(dots: seq<DirEntry>, asFile: DirEntry, asDir: DirEntry)
    requires forall x | x in dots :: !Visible(x)
    requires Visible(asFile) && Visible(asDir) && asFile.ino == asDir.ino && asFile.ino != UFS_ROOTINO
    requires !IsDirEntry(asFile)
    ensures ScanReach(dots + [asFile, asDir], Scan([UFS_ROOTINO], [])) == Scan([UFS_ROOTINO, asFile.ino], [])
    decreases |dots|
  {
    hide ScanReach, Visible, IsDirEntry;
    var es, start := dots + [asFile, asDir], Scan([UFS_ROOTINO], []);
    ScanOne(es, 0, start);
    assert es[0..] == es;
    if dots == [] {
      var next := Scan([UFS_ROOTINO, asFile.ino], []);
      assert [UFS_ROOTINO] + [asFile.ino] == next.reachable;
      ScanOne(es, 1, next);
      assert es[2..] == [];
      ScanNothing(next);
    } else {
      assert dots[0] in dots && forall x | x in dots[1..] :: x in dots;
      assert es[1..] == dots[1..] + [asFile, asDir];
      HiddenScan(dots[1..], asFile, asDir);
    }
  }
}
