/** The deleted-slot walk is the recursive depth-first walk (forensic/src/lib.rs). */
module Preorder {
  import opened Bytes
  import opened Traversal

  function Reversed<T>(s: seq<T>): seq<T> {
    if s == [] then [] else Reversed(s[1..]) + [s[0]]
  }

  lemma {:induction false} ReversedTwice<T>(s: seq<T>)
    ensures Reversed(Reversed(s)) == s
  {
    if s != [] {
      ReversedTwice(s[1..]);
      ReversedPush(Reversed(s[1..]), s[0]);
    }
  }

  lemma {:induction false} ReversedPush<T>(s: seq<T>, x: T)
    ensures Reversed(s + [x]) == [x] + Reversed(s)
  {
    if s == [] {
      assert [x][1..] == [];
    } else {
      assert (s + [x])[1..] == s[1..] + [x];
      ReversedPush(s[1..], x);
    }
  }

  /**
   * Visit these directories in turn: one seen before is skipped; any other is recorded, and its subdirectories are
   * visited, the one listed last first, before the next.
   */
  ghost function Visit(g: Graph, depth: nat, dirs: seq<U64>, seen: seq<U64>): seq<U64>
    decreases depth, |dirs|
  {
    if dirs == [] then seen
    else
      var d := dirs[0];
      var after :=
        if d in seen || depth == 0 then seen else Visit(g, depth - 1, Reversed(DirsOf(g(d))), seen + [d]);
      Visit(g, depth, dirs[1..], after)
  }

  /** The worklist walk from these directories on, with what it collected before. */
  ghost function CollectFrom(g: Graph, budget: nat, queue: seq<U64>, visited: seq<U64>): Collected {
    CollectLoop(g, budget, queue, visited, DeletedIn(g, visited))
  }

  lemma CollectTurn(g: Graph, budget: nat, rest: seq<U64>, d: U64, visited: seq<U64>)
    requires budget > 0
    ensures CollectFrom(g, budget, rest + [d], visited) ==
              if d in visited then CollectFrom(g, budget - 1, rest, visited)
              else CollectFrom(g, budget - 1, rest + DirsOf(g(d)), visited + [d])
  {
    hide CollectLoop, DeletedIn, DirsOf, DeletedOf;
    CollectUnfold(g, budget, rest + [d], visited, DeletedIn(g, visited));
    assert (rest + [d])[..|rest|] == rest;
    Grown(g, visited, d);
  }

  /** Once a walk that ends has worked off the top of its stack, it has visited those directories depth first. */
  lemma {:induction false} TopVisited(g: Graph, budget: nat, depth: nat, rest: seq<U64>, dirs: seq<U64>,
                                      visited: seq<U64>) returns (left: nat)
    requires budget <= depth && CollectFrom(g, budget, rest + Reversed(dirs), visited).pending == []
    ensures left <= budget
    ensures CollectFrom(g, budget, rest + Reversed(dirs), visited)
         == CollectFrom(g, left, rest, Visit(g, depth, dirs, visited))
    decreases budget, |dirs|
  {
    hide CollectFrom, DirsOf;
    if dirs == [] {
      assert rest + Reversed(dirs) == rest;
      return budget;
    }
    var d, more := dirs[0], rest + Reversed(dirs[1..]);
    assert rest + Reversed(dirs) == more + [d];
    if budget == 0 {
      Stuck(g, more + [d], visited);
    } else {
      CollectTurn(g, budget, more, d, visited);
      if d in visited {
        left := TopVisited(g, budget - 1, depth, rest, dirs[1..], visited);
      } else {
        var subdirs := Reversed(DirsOf(g(d)));
        ReversedTwice(DirsOf(g(d)));
        var after := TopVisited(g, budget - 1, depth - 1, more, subdirs, visited + [d]);
        left := TopVisited(g, after, depth, rest, dirs[1..], Visit(g, depth - 1, subdirs, visited + [d]));
      }
    }
  }

  lemma Stuck(g: Graph, queue: seq<U64>, visited: seq<U64>)
    ensures CollectFrom(g, 0, queue, visited).pending == queue
  {
  }

  lemma NothingQueued(g: Graph, budget: nat, visited: seq<U64>)
    ensures CollectFrom(g, budget, [], visited) == Collected(DeletedIn(g, visited), visited, [])
  {
  }

  /**
   * A walk that its budget lets finish expands the directories in the order of the recursive depth-first walk from
   * the root, and collects their residual slots in that order.
   */
  lemma CollectIsDepthFirst(g: Graph, depth: nat)
    requires Collect(g).pending == [] && depth >= 0x10_0000
    ensures Collect(g).visited == Visit(g, depth, [2], [])
    ensures Collect(g).deleted == DeletedIn(g, Visit(g, depth, [2], []))
  {
    hide CollectFrom, Visit;
    var root: seq<U64> := [2];
    assert [] + Reversed(root) == root by {
      assert root[1..] == [];
    }
    CollectFromRoot(g);
    var left := TopVisited(g, BUDGET, depth, [], root, []);
    NothingQueued(g, left, Visit(g, depth, root, []));
  }

  lemma CollectFromRoot(g: Graph)
    ensures Collect(g) == CollectFrom(g, BUDGET, [2], [])
  {
    hide CollectLoop;
  }
}
