/** Concatenation of a family of sequences over `0..n`: what every nested push loop of the source builds. */
module Gathering {

  function Gather<T>(f: nat -> seq<T>, n: nat): seq<T> {
    if n == 0 then [] else Gather(f, n - 1) + f(n - 1)
  }

  lemma {:induction false} GatherSame<T>(f: nat -> seq<T>, g: nat -> seq<T>, n: nat)
    requires forall k: nat | k < n :: f(k) == g(k)
    ensures Gather(f, n) == Gather(g, n)
  {
    if n > 0 {
      GatherSame(f, g, n - 1);
    }
  }

  lemma {:induction false} GatherMember<T>(f: nat -> seq<T>, n: nat, x: T)
    ensures x in Gather(f, n) <==> exists k: nat :: k < n && x in f(k)
  {
    if n > 0 {
      GatherMember(f, n - 1, x);
    }
  }

  lemma {:induction false} GatherEmpty<T>(f: nat -> seq<T>, n: nat)
    ensures Gather(f, n) == [] <==> forall k: nat | k < n :: f(k) == []
  {
    if n > 0 {
      GatherEmpty(f, n - 1);
    }
  }

  lemma {:induction false} GatherPrefix<T>(f: nat -> seq<T>, k: nat, n: nat)
    requires k <= n
    ensures Gather(f, k) <= Gather(f, n)
    decreases n
  {
    if k < n {
      GatherPrefix(f, k, n - 1);
    }
  }

  lemma GatherNone<T>(f: nat -> seq<T>)
    ensures Gather(f, 0) == []
  {
  }

  lemma {:induction false} GatherNoMore<T>(f: nat -> seq<T>, k: nat, n: nat)
    requires k <= n && forall j: nat | k <= j < n :: f(j) == []
    ensures Gather(f, n) == Gather(f, k)
  {
    if k < n {
      GatherNoMore(f, k, n - 1);
    }
  }

  lemma GatherStep<T>(f: nat -> seq<T>, k: nat)
    ensures Gather(f, k + 1) == Gather(f, k) + f(k)
  {
  }

  lemma AfterPrefix<T>(s: seq<T>, a: seq<T>, b: seq<T>)
    requires a + b <= s
    ensures s[|a|..|a| + |b|] == b
  {
    assert s[..|a| + |b|] == a + b;
  }

  /** Row `k` starts where the rows before it end. */
  lemma GatherRow<T>(f: nat -> seq<T>, k: nat, n: nat)
    requires k < n
    ensures |Gather(f, k)| + |f(k)| <= |Gather(f, n)|
    ensures Gather(f, n)[|Gather(f, k)|..|Gather(f, k)| + |f(k)|] == f(k)
  {
    hide Gather;
    GatherStep(f, k);
    GatherPrefix(f, k + 1, n);
    AfterPrefix(Gather(f, n), Gather(f, k), f(k));
  }

  /** Rows of one length `m` put row `k` at `k * m`. */
  lemma {:induction false} GatherEvenly<T>(f: nat -> seq<T>, n: nat, m: nat)
    requires forall k: nat | k < n :: |f(k)| == m
    ensures |Gather(f, n)| == n * m
  {
    if n > 0 {
      GatherEvenly(f, n - 1, m);
    }
  }

  lemma GatherEvenRow<T>(f: nat -> seq<T>, n: nat, m: nat, k: nat, at: nat)
    requires forall r: nat | r < n :: |f(r)| == m
    requires k < n && at == k * m
    ensures at + m <= |Gather(f, n)| && Gather(f, n)[at..at + m] == f(k)
  {
    hide Gather;
    GatherEvenly(f, k, m);
    GatherRow(f, k, n);
  }

  lemma GatherPast<T>(f: nat -> seq<T>, n: nat, m: nat, k: nat, at: nat)
    requires forall r: nat | r < n :: |f(r)| == m
    requires k >= n && at == k * m
    ensures |Gather(f, n)| <= at
  {
    hide Gather;
    GatherEvenly(f, n, m);
    assert k * m == n * m + (k - n) * m;
  }

  lemma GatherIndex<T>(f: nat -> seq<T>, n: nat, m: nat, k: nat, j: nat)
    requires forall r: nat | r < n :: |f(r)| == m
    requires k < n && j < m
    ensures |Gather(f, n)| == n * m && k * m + j < n * m
    ensures Gather(f, n)[k * m + j] == f(k)[j]
  {
    hide Gather;
    GatherEvenly(f, n, m);
    GatherEvenly(f, k, m);
    GatherRow(f, k, n);
    assert Gather(f, n)[k * m + j] == Gather(f, n)[k * m..k * m + m][j];
  }

  /** Rows of at most one element, tagged by their row, come out in strictly ascending order. */
  lemma {:induction false} GatherAscending<T>(f: nat -> seq<T>, n: nat, tag: T -> nat)
    requires forall k: nat | k < n :: |f(k)| <= 1 && forall x | x in f(k) :: tag(x) == k
    ensures forall x | x in Gather(f, n) :: tag(x) < n
    ensures forall i, j | 0 <= i < j < |Gather(f, n)| :: tag(Gather(f, n)[i]) < tag(Gather(f, n)[j])
  {
    if n > 0 {
      GatherAscending(f, n - 1, tag);
      var front, last := Gather(f, n - 1), f(n - 1);
      forall i, j | 0 <= i < j < |front + last|
        ensures tag((front + last)[i]) < tag((front + last)[j])
      {
        assert front[i] in front;
        if j >= |front| {
          assert last[j - |front|] in last;
        }
      }
    }
  }

  // ── order ──────────────────────────────────────────────────────────────────

  /** Ranks within `[lo, hi)`, strictly ascending. */
  ghost predicate Ranked<T>(s: seq<T>, rank: T -> nat, lo: nat, hi: nat) {
    && (forall x | x in s :: lo <= rank(x) < hi)
    && forall i, j | 0 <= i < j < |s| :: rank(s[i]) < rank(s[j])
  }

  lemma RankedAppend<T>(a: seq<T>, b: seq<T>, rank: T -> nat, lo: nat, mid: nat, hi: nat)
    requires Ranked(a, rank, lo, mid) && Ranked(b, rank, mid, hi) && lo <= mid <= hi
    ensures Ranked(a + b, rank, lo, hi)
  {
    var s := a + b;
    forall i, j | 0 <= i < j < |s|
      ensures rank(s[i]) < rank(s[j])
    {
      if i < |a| {
        assert s[i] in a;
      }
      if j >= |a| {
        assert s[j] in b;
      }
    }
  }

  /** Rows ranked within consecutive bands of one width come out ranked. */
  lemma {:induction false} GatherRanked<T>(f: nat -> seq<T>, n: nat, rank: T -> nat, width: nat)
    requires forall k: nat | k < n :: Ranked(f(k), rank, k * width, k * width + width)
    ensures Ranked(Gather(f, n), rank, 0, n * width)
  {
    hide Ranked;
    if n == 0 {
      NoneRanked<T>(rank);
    } else {
      GatherRanked(f, n - 1, rank, width);
      assert n * width == (n - 1) * width + width;
      RankedAppend(Gather(f, n - 1), f(n - 1), rank, 0, (n - 1) * width, n * width);
    }
  }

  lemma NoneRanked<T>(rank: T -> nat)
    ensures Ranked<T>([], rank, 0, 0)
  {
  }
}
