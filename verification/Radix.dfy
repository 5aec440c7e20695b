/** Mixed-radix block numbers: logical block index, level of indirection, one digit per pointer block. */
module Radix {
  import opened Bytes

  function Pow(n: nat, h: nat): nat {
    if h == 0 then 1 else n * Pow(n, h - 1)
  }

  lemma PowValues(n: nat)
    ensures Pow(n, 0) == 1 && Pow(n, 1) == n && Pow(n, 2) == n * n && Pow(n, 3) == n * n * n
  {
    assert Pow(n, 2) == n * Pow(n, 1);
    assert Pow(n, 3) == n * Pow(n, 2);
    assert n * (n * n) == n * n * n;
  }

  lemma {:induction false} PowPositive(n: nat, h: nat)
    requires n > 0
    ensures Pow(n, h) > 0
  {
    if h > 0 {
      PowPositive(n, h - 1);
      MulBound(1, 1, n, Pow(n, h - 1));
    }
  }

  lemma QuotientBound(q: nat, r: nat, m: nat, n: nat)
    requires q * m + r < n * m
    ensures q < n
  {
    if n <= q {
      MulBound(n, m, q, m);
    }
  }

  /** The `h` base-`n` digits of `i`, most significant first. */
  function Digits(n: nat, h: nat, i: nat): seq<nat>
    requires n > 0
  {
    if h == 0 then []
    else
      PowPositive(n, h - 1);
      [i / Pow(n, h - 1)] + Digits(n, h - 1, i % Pow(n, h - 1))
  }

  function Value(n: nat, ds: seq<nat>): nat {
    if ds == [] then 0 else ds[0] * Pow(n, |ds| - 1) + Value(n, ds[1..])
  }

  predicate DigitsBelow(n: nat, ds: seq<nat>) {
    forall d | d in ds :: d < n
  }

  lemma {:induction false} DigitsValue(n: nat, h: nat, i: nat)
    requires n > 0 && i < Pow(n, h)
    ensures var ds := Digits(n, h, i);
            |ds| == h && DigitsBelow(n, ds) && Value(n, ds) == i
  {
    if h > 0 {
      PowPositive(n, h - 1);
      var q, r := DivMod(i, Pow(n, h - 1));
      QuotientBound(q, r, Pow(n, h - 1), n);
      DigitsValue(n, h - 1, r);
      assert Digits(n, h, i)[1..] == Digits(n, h - 1, r);
    }
  }

  lemma {:induction false} ValueDigits(n: nat, ds: seq<nat>)
    requires n > 0 && DigitsBelow(n, ds)
    ensures Value(n, ds) < Pow(n, |ds|)
    ensures Digits(n, |ds|, Value(n, ds)) == ds
    decreases |ds|
  {
    if ds != [] {
      var h, rest := |ds| - 1, ds[1..];
      assert ds == [ds[0]] + rest;
      assert ds[0] in ds && forall d | d in rest :: d in ds;
      ValueDigits(n, rest);
      SlotEnd(ds[0], n, Pow(n, h));
      DivModUnique(Value(n, ds), Pow(n, h), ds[0], Value(n, rest));
    }
  }

  // ── the block map's address space ──────────────────────────────────────────

  const NDADDR: nat := 12

  /** First block index of each level: direct, single, double and triple indirect, and the end of the reach. */
  function Base(n: nat, level: nat): nat
    requires level <= 4
  {
    match level
    case 0 => 0
    case 1 => NDADDR
    case 2 => NDADDR + n
    case 3 => NDADDR + n + n * n
    case _ => NDADDR + n + n * n + n * n * n
  }

  datatype BlockPath = BlockPath(level: nat, digits: seq<nat>) {
    ghost predicate Valid(n: nat) {
      && level <= 3
      && (level == 0 ==> |digits| == 1 && digits[0] < NDADDR)
      && (level > 0 ==> |digits| == level && DigitsBelow(n, digits))
    }
  }

  function PathOf(n: nat, bi: nat): BlockPath
    requires bi < Base(n, 4)
  {
    if bi < NDADDR then BlockPath(0, [bi])
    else if bi < Base(n, 2) then BlockPath(1, Digits(n, 1, bi - Base(n, 1)))
    else if bi < Base(n, 3) then BlockPath(2, Digits(n, 2, bi - Base(n, 2)))
    else BlockPath(3, Digits(n, 3, bi - Base(n, 3)))
  }

  function IndexOf(n: nat, path: BlockPath): nat
    requires path.Valid(n)
  {
    if path.level == 0 then path.digits[0] else Base(n, path.level) + Value(n, path.digits)
  }

  /** Level `L` holds exactly `n^L` blocks. */
  lemma BaseStep(n: nat, level: nat)
    requires 1 <= level <= 3
    ensures Base(n, level) + Pow(n, level) == Base(n, level + 1)
  {
    PowValues(n);
  }

  /** Every block index within reach names one path, and its path names it. */
  lemma PathOfIndex(n: nat, bi: nat)
    requires bi < Base(n, 4)
    ensures PathOf(n, bi).Valid(n)
    ensures IndexOf(n, PathOf(n, bi)) == bi
  {
    hide Digits, Value;
    if bi >= NDADDR {
      BaseStep(n, 1);
      BaseStep(n, 2);
      BaseStep(n, 3);
      var level := if bi < Base(n, 2) then 1 else if bi < Base(n, 3) then 2 else 3;
      DigitsValue(n, level, bi - Base(n, level));
    }
  }

  /** Every path names one block index within reach, and that index names it. */
  lemma IndexOfPath(n: nat, path: BlockPath)
    requires path.Valid(n)
    ensures IndexOf(n, path) < Base(n, 4)
    ensures PathOf(n, IndexOf(n, path)) == path
  {
    hide Digits, Value;
    BaseStep(n, 1);
    BaseStep(n, 2);
    BaseStep(n, 3);
    if path.level > 0 {
      assert path.digits[0] in path.digits;
      ValueDigits(n, path.digits);
    }
  }
}
