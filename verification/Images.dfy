/** Writing to an image: overlays of byte runs, and images that agree outside a set of edited positions. */
module Images {
  import opened Bytes

  datatype Write = Write(off: nat, bytes: seq<Byte>) {
    function End(): nat {
      off + |bytes|
    }
  }

  ghost predicate Fits(ws: seq<Write>, len: nat) {
    forall i | 0 <= i < |ws| :: ws[i].End() <= len
  }

  ghost predicate Disjoint(ws: seq<Write>) {
    forall i, j | 0 <= i < j < |ws| :: ws[i].End() <= ws[j].off || ws[j].End() <= ws[i].off
  }

  ghost function Splice(img: Buffer, w: Write): (r: Buffer)
    requires w.End() <= |img|
    ensures |r| == |img|
    ensures r[w.off..w.End()] == w.bytes
  {
    img[..w.off] + w.bytes + img[w.End()..]
  }

  lemma SplicedAt(img: Buffer, w: Write, i: nat)
    requires w.End() <= |img| && i < |img|
    ensures Splice(img, w)[i] == if w.off <= i < w.End() then w.bytes[i - w.off] else img[i]
  {
  }

  lemma SpliceElsewhere(img: Buffer, w: Write, lo: nat, hi: nat)
    requires w.End() <= |img| && lo <= hi <= |img|
    requires hi <= w.off || w.End() <= lo
    ensures Splice(img, w)[lo..hi] == img[lo..hi]
  {
    forall i | lo <= i < hi
      ensures Splice(img, w)[i] == img[i]
    {
    }
  }

  ghost function Overlay(img: Buffer, ws: seq<Write>): (r: Buffer)
    requires Fits(ws, |img|)
    ensures |r| == |img|
  {
    if ws == [] then img else Splice(Overlay(img, ws[..|ws| - 1]), ws[|ws| - 1])
  }

  /** Every one of a set of non-overlapping writes is still there at the end. */
  lemma {:induction false} OverlayReadsBack(img: Buffer, ws: seq<Write>, i: nat)
    requires Fits(ws, |img|) && Disjoint(ws) && i < |ws|
    ensures Overlay(img, ws)[ws[i].off..ws[i].End()] == ws[i].bytes
    decreases |ws|
  {
    var last := |ws| - 1;
    if i < last {
      OverlayReadsBack(img, ws[..last], i);
      SpliceElsewhere(Overlay(img, ws[..last]), ws[last], ws[i].off, ws[i].End());
    }
  }

  ghost predicate Holds(p: Buffer, w: Write) {
    w.End() <= |p| && p[w.off..w.End()] == w.bytes
  }

  ghost predicate HoldsAll(p: Buffer, ws: seq<Write>) {
    forall w | w in ws :: Holds(p, w)
  }

  lemma HeldAt(p: Buffer, ws: seq<Write>, i: nat)
    requires i < |ws| && HoldsAll(p, ws)
    ensures Holds(p, ws[i])
  {
  }

  lemma HoldsBoth(p: Buffer, a: seq<Write>, b: seq<Write>)
    ensures HoldsAll(p, a + b) <==> HoldsAll(p, a) && HoldsAll(p, b)
  {
    hide Holds;
    assert forall w :: w in a + b <==> w in a || w in b;
  }

  /** An image overlaid with non-overlapping writes holds them all. */
  lemma OverlayHolds(img: Buffer, ws: seq<Write>)
    requires Fits(ws, |img|) && Disjoint(ws)
    ensures HoldsAll(Overlay(img, ws), ws)
  {
    hide Overlay;
    forall w | w in ws
      ensures Holds(Overlay(img, ws), w)
    {
      var i :| 0 <= i < |ws| && ws[i] == w;
      OverlayReadsBack(img, ws, i);
    }
  }

  ghost function Moved(ws: seq<Write>, shift: nat): seq<Write> {
    seq(|ws|, i requires 0 <= i < |ws| => Write(shift + ws[i].off, ws[i].bytes))
  }

  /** What an image holds at moved places, the slice from there on holds in place. */
  lemma HeldInside(p: Buffer, ws: seq<Write>, lo: nat, hi: nat)
    requires lo <= hi <= |p| && HoldsAll(p, Moved(ws, lo))
    requires forall w | w in ws :: lo + w.End() <= hi
    ensures HoldsAll(p[lo..hi], ws)
  {
    var moved := Moved(ws, lo);
    forall w | w in ws
      ensures Holds(p[lo..hi], w)
    {
      var i :| 0 <= i < |ws| && ws[i] == w;
      assert moved[i] in moved;
      SliceOfSlice(p, lo, hi, w.off, w.End());
    }
  }

  /** Writes in ascending order, each ending where the next may start, all within `[lo, hi)`. */
  ghost predicate InOrder(ws: seq<Write>, lo: nat, hi: nat) {
    && (forall i | 0 <= i < |ws| :: lo <= ws[i].off && ws[i].End() <= hi)
    && (forall i | 0 <= i < |ws| - 1 :: ws[i].End() <= ws[i + 1].off)
  }

  lemma InOrderAppend(a: seq<Write>, b: seq<Write>, lo: nat, mid: nat, hi: nat)
    requires InOrder(a, lo, mid) && InOrder(b, mid, hi) && lo <= mid <= hi
    ensures InOrder(a + b, lo, hi)
  {
    var ws := a + b;
    forall i | 0 <= i < |ws| - 1
      ensures ws[i].End() <= ws[i + 1].off
    {
      if i + 1 < |a| {
        assert ws[i + 1] == a[i + 1];
      } else if i + 1 > |a| {
        assert ws[i] == b[i - |a|];
      }
    }
  }

  lemma InOrderMoved(ws: seq<Write>, lo: nat, hi: nat, shift: nat)
    requires InOrder(ws, lo, hi)
    ensures InOrder(Moved(ws, shift), shift + lo, shift + hi)
  {
  }

  lemma InOrderWiden(ws: seq<Write>, lo: nat, hi: nat, less: nat, more: nat)
    requires InOrder(ws, lo, hi) && less <= lo && hi <= more
    ensures InOrder(ws, less, more)
  {
  }

  lemma InOrderDisjoint(ws: seq<Write>, lo: nat, hi: nat)
    requires InOrder(ws, lo, hi)
    ensures Fits(ws, hi) && Disjoint(ws)
  {
    forall i, j | 0 <= i < j < |ws|
      ensures ws[i].End() <= ws[j].off
    {
      LaterStartsAfter(ws, lo, hi, i, j);
    }
  }

  /** Two runs of writes on either side of `mid` do not overlap, in whichever order they are made. */
  lemma ApartDisjoint(a: seq<Write>, b: seq<Write>, lo: nat, mid: nat, hi: nat)
    requires InOrder(b, lo, mid) && InOrder(a, mid, hi) && mid <= hi
    ensures Fits(a + b, hi) && Disjoint(a + b)
  {
    InOrderDisjoint(a, mid, hi);
    InOrderDisjoint(b, lo, mid);
    var ws := a + b;
    forall i, j | 0 <= i < j < |ws|
      ensures ws[i].End() <= ws[j].off || ws[j].End() <= ws[i].off
    {
      if j < |a| {
        assert ws[i] == a[i] && ws[j] == a[j];
      } else if i >= |a| {
        assert ws[i] == b[i - |a|] && ws[j] == b[j - |a|];
      } else {
        assert ws[i] == a[i] && ws[j] == b[j - |a|];
      }
    }
  }

  lemma {:induction false} LaterStartsAfter(ws: seq<Write>, lo: nat, hi: nat, i: nat, j: nat)
    requires InOrder(ws, lo, hi) && i < j < |ws|
    ensures ws[i].End() <= ws[j].off
    decreases j
  {
    if i + 1 < j {
      LaterStartsAfter(ws, lo, hi, i, j - 1);
    }
    assert ws[j - 1].End() <= ws[j - 1 + 1].off;
  }

  // ── edits ──────────────────────────────────────────────────────────────────

  /** `q` is `p` with nothing changed outside `edits`. */
  ghost predicate SameExcept(p: Buffer, q: Buffer, edits: set<nat>) {
    && |p| == |q|
    && forall i | 0 <= i < |p| && i !in edits :: p[i] == q[i]
  }

  ghost predicate Clear(edits: set<nat>, lo: nat, hi: nat) {
    forall x | x in edits :: x < lo || hi <= x
  }

  lemma SpliceOne(p: Buffer, at: nat, b: Byte)
    requires at < |p|
    ensures var q := Splice(p, Write(at, [b])); SameExcept(p, q, {at}) && q[at] == b
  {
  }

  lemma SameTwice(p: Buffer, m: Buffer, q: Buffer, a: set<nat>, b: set<nat>)
    requires SameExcept(p, m, a) && SameExcept(m, q, b)
    ensures SameExcept(p, q, a + b)
  {
  }

  lemma SameSlice(p: Buffer, q: Buffer, edits: set<nat>, lo: nat, hi: nat)
    requires SameExcept(p, q, edits) && Clear(edits, lo, hi) && lo <= hi <= |p|
    ensures p[lo..hi] == q[lo..hi]
  {
    forall i | lo <= i < hi
      ensures p[i] == q[i]
    {
    }
  }
}
