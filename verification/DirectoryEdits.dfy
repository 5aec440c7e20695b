/** Printing directory records, and the two ways of deleting one (core/src/dir.rs, docs/RESEARCH.md). */
module DirectoryEdits {
  import opened Bytes
  import opened Images
  import opened Directory

  // ── printing ───────────────────────────────────────────────────────────────

  /** A directory record as it is written: `pad` is whatever follows the name up to `d_reclen`. */
  datatype Record = Record(ino: U32, dType: Byte, name: seq<Byte>, pad: seq<Byte>) {
    ghost function Reclen(): nat {
      DIRECT_HEAD + |name| + |pad|
    }

    ghost predicate Valid() {
      |name| <= 255 && Reclen() <= 65535
    }

    ghost function Bytes(e: Endian): (s: seq<Byte>)
      requires Valid()
      ensures |s| == Reclen()
    {
      Encode(e, 4, ino) + Encode(e, 2, Reclen()) + [dType] + [|name|] + name + pad
    }

    ghost function Entry(): DirEntry {
      DirEntry(name, ino, FromDType(dType), ino == 0)
    }
  }

  lemma RecordReadsBack(e: Endian, r: Record)
    requires r.Valid()
    ensures Walkable(e, r.Bytes(e)) && RecLen(e, r.Bytes(e)) == r.Reclen()
    ensures EntryAt(e, r.Bytes(e)) == r.Entry()
  {
    hide Encode, Decode, Pow256, FromDType;
    var s: Buffer := r.Bytes(e);
    assert s[0..4] == Encode(e, 4, r.ino) && s[4..6] == Encode(e, 2, r.Reclen());
    Pow256Values();
    DecodeEncode(e, 4, r.ino);
    DecodeEncode(e, 2, r.Reclen());
    assert s[6] == r.dType && s[7] == |r.name|;
    assert s[8..8 + |r.name|] == r.name;
  }

  ghost predicate AllValid(rs: seq<Record>) {
    forall r | r in rs :: r.Valid()
  }

  lemma ValidParts(a: seq<Record>, b: seq<Record>)
    ensures AllValid(a + b) <==> AllValid(a) && AllValid(b)
  {
    assert forall r :: r in a + b <==> r in a || r in b;
  }

  lemma ValidOne(r: Record)
    ensures AllValid([r]) <==> r.Valid()
  {
  }

  ghost function Print(e: Endian, rs: seq<Record>): seq<Byte>
    requires AllValid(rs)
  {
    if rs == [] then []
    else
      assert rs[|rs| - 1] in rs && forall r | r in rs[..|rs| - 1] :: r in rs;
      Print(e, rs[..|rs| - 1]) + rs[|rs| - 1].Bytes(e)
  }

  ghost function Entries(rs: seq<Record>): seq<DirEntry> {
    if rs == [] then [] else Entries(rs[..|rs| - 1]) + [rs[|rs| - 1].Entry()]
  }

  lemma WalkOneRecord(e: Endian, r: Record)
    requires r.Valid()
    ensures Walk(e, r.Bytes(e)) == [r.Entry()] && Tiled(e, r.Bytes(e))
  {
    hide EntryAt, FromDType, ReadUint;
    RecordReadsBack(e, r);
    var s: Buffer := r.Bytes(e);
    assert s[r.Reclen()..] == [];
    WalkNothing(e, []);
  }

  /** Walking undoes printing, in either byte order and whatever padding the records carry. */
  lemma {:induction false} WalkPrint(e: Endian, rs: seq<Record>)
    requires AllValid(rs) && |Print(e, rs)| < 0x8000_0000_0000_0000
    ensures Walk(e, Print(e, rs)) == Entries(rs) && Tiled(e, Print(e, rs))
    decreases |rs|
  {
    hide Walk, WalkEnd, EntryAt;
    if rs == [] {
      WalkNothing(e, []);
    } else {
      var front, last := rs[..|rs| - 1], rs[|rs| - 1];
      assert last in rs && forall r | r in front :: r in rs;
      WalkPrint(e, front);
      WalkOneRecord(e, last);
      WalkAppend(e, Print(e, front), last.Bytes(e));
    }
  }

  // ── the two ways of deleting an entry ──────────────────────────────────────

  /** Offset of the `k`-th record. */
  ghost function RecordOffset(e: Endian, s: Buffer, k: nat): (off: nat)
    requires k < |Walk(e, s)|
    ensures off + DIRECT_HEAD <= |s|
    decreases k
  {
    if k == 0 then 0 else RecLen(e, s) + RecordOffset(e, s[RecLen(e, s)..], k - 1)
  }

  ghost function ZeroIno(s: Buffer, off: nat): Buffer
    requires off + DIRECT_HEAD <= |s|
  {
    Splice(s, Write(off, Zeros(4)))
  }

  function Gone(x: DirEntry): DirEntry {
    x.(ino := 0, deleted := true)
  }

  lemma PrintLast(e: Endian, rs: seq<Record>, last: Record)
    requires AllValid(rs) && last.Valid()
    ensures AllValid(rs + [last]) && Print(e, rs + [last]) == Print(e, rs) + last.Bytes(e)
  {
    assert (rs + [last])[..|rs|] == rs;
  }

  lemma Regroup<T>(a: seq<T>, b: seq<T>, c: seq<T>)
    ensures a + (b + c) == a + b + c
  {
  }

  lemma PrintBefore(e: Endian, a: seq<Record>, front: seq<Record>, last: Record)
    requires AllValid(a) && AllValid(front) && AllValid(a + front) && last.Valid()
    requires Print(e, a + front) == Print(e, a) + Print(e, front)
    ensures AllValid(front + [last]) && AllValid(a + (front + [last]))
    ensures Print(e, a + (front + [last])) == Print(e, a) + Print(e, front + [last])
  {
    hide Print, AllValid;
    PrintLast(e, front, last);
    PrintLast(e, a + front, last);
    Regroup(a, front, [last]);
    Regroup(Print(e, a), Print(e, front), last.Bytes(e));
  }

  lemma {:induction false} PrintAppend(e: Endian, a: seq<Record>, b: seq<Record>)
    requires AllValid(a) && AllValid(b)
    ensures AllValid(a + b) && Print(e, a + b) == Print(e, a) + Print(e, b)
    decreases |b|
  {
    hide Print, AllValid;
    ValidParts(a, b);
    if b == [] {
      assert a + b == a;
      PrintNothing(e);
    } else {
      var front, last := b[..|b| - 1], b[|b| - 1];
      assert b == front + [last];
      ValidOne(last);
      ValidParts(front, [last]);
      ValidParts(a, front);
      PrintAppend(e, a, front);
      PrintBefore(e, a, front, last);
    }
  }

  lemma PrintNothing(e: Endian)
    ensures AllValid([]) && Print(e, []) == []
  {
  }

  lemma PrintFirst(e: Endian, first: Record, rs: seq<Record>)
    requires first.Valid() && AllValid(rs)
    ensures AllValid([first] + rs) && Print(e, [first] + rs) == first.Bytes(e) + Print(e, rs)
  {
    hide Print, AllValid;
    ValidOne(first);
    PrintNothing(e);
    PrintLast(e, [], first);
    assert [] + [first] == [first];
    PrintAppend(e, [first], rs);
  }

  lemma PrintTwo(e: Endian, a: Record, b: Record)
    requires a.Valid() && b.Valid()
    ensures AllValid([a, b]) && Print(e, [a, b]) == a.Bytes(e) + b.Bytes(e)
  {
    hide Print, AllValid, Encode;
    PrintNothing(e);
    ValidOne(b);
    PrintFirst(e, b, []);
    PrintFirst(e, a, [b]);
    assert [b] + [] == [b] && [a] + [b] == [a, b];
  }

  lemma {:induction false} EntriesAt(rs: seq<Record>, k: nat)
    requires k < |rs|
    ensures |Entries(rs)| == |rs| && Entries(rs)[k] == rs[k].Entry()
    decreases |rs|
  {
    if |rs| > 1 {
      EntriesAt(rs[..|rs| - 1], if k < |rs| - 1 then k else 0);
    }
  }

  /** A record is met where the records printed before it end. */
  lemma {:induction false} PrintOffset(e: Endian, before: seq<Record>, after: seq<Record>)
    requires AllValid(before) && AllValid(after) && AllValid(before + after) && after != []
    requires |Print(e, before + after)| < 0x8000_0000_0000_0000
    ensures |before| < |Walk(e, Print(e, before + after))|
    ensures RecordOffset(e, Print(e, before + after), |before|) == |Print(e, before)|
    decreases |before|
  {
    hide Walk, EntryAt, Entries, RecLen, Print;
    WalkPrint(e, before + after);
    EntriesAt(before + after, |before|);
    PrintNothing(e);
    if before != [] {
      var first, rest := before[0], before[1..];
      assert before == [first] + rest && first in before && AllValid(rest);
      assert before + after == [first] + (rest + after);
      PrintFirst(e, first, rest);
      assert AllValid(rest + after);
      PrintFirst(e, first, rest + after);
      FirstRecord(e, first, Print(e, rest + after));
      PrintOffset(e, rest, after);
    }
  }

  lemma FirstRecord(e: Endian, first: Record, rest: Buffer)
    requires first.Valid() && |first.Bytes(e) + rest| < 0x8000_0000_0000_0000
    ensures var s := first.Bytes(e) + rest;
            RecLen(e, s) == |first.Bytes(e)| && s[RecLen(e, s)..] == rest
  {
    hide RecLen;
    RecordReadsBack(e, first);
    SameRecordHead(e, first.Bytes(e) + rest, first.Bytes(e));
  }

  lemma ZeroFirstIno(e: Endian, s: Buffer)
    requires Walkable(e, s)
    ensures var t := ZeroIno(s, 0);
            Walkable(e, t) && RecLen(e, t) == RecLen(e, s) && EntryAt(e, t) == Gone(EntryAt(e, s))
  {
    hide Decode, FromDType;
    var t := ZeroIno(s, 0);
    var w := Write(0, Zeros(4));
    SpliceElsewhere(s, w, 4, 6);
    SpliceElsewhere(s, w, 6, |s|);
    assert t[6..|s|][0] == s[6] && t[6..|s|][1] == s[7];
    DecodeZeros(e, 4);
    assert t[0..4] == Zeros(4);
    var end := Min(DIRECT_HEAD + Min(ReadU8(s, 7), RecLen(e, s) - DIRECT_HEAD), |s|);
    SpliceElsewhere(s, w, DIRECT_HEAD, end);
  }

  lemma OffsetUnfold(e: Endian, s: Buffer, k: nat)
    requires 0 < k < |Walk(e, s)|
    ensures Walkable(e, s) && RecLen(e, s) <= |s|
    ensures var rest := s[RecLen(e, s)..];
            && k - 1 < |Walk(e, rest)|
            && RecordOffset(e, s, k) == RecLen(e, s) + RecordOffset(e, rest, k - 1)
  {
    hide ReadUint, EntryAt;
  }

  /** Zeroing the inode number of a record changes that slot to a deleted one of the same name, and no other. */
  lemma {:induction false} ZeroInoWalk(e: Endian, s: Buffer, k: nat)
    requires k < |Walk(e, s)|
    ensures Walk(e, ZeroIno(s, RecordOffset(e, s, k))) == Walk(e, s)[k := Gone(Walk(e, s)[k])]
    decreases k
  {
    hide Walk, RecLen, EntryAt, Splice;
    if k == 0 {
      ZeroFirstInoWalk(e, s);
    } else {
      OffsetUnfold(e, s, k);
      var r := RecLen(e, s);
      var off := RecordOffset(e, s[r..], k - 1);
      ZeroInoWalk(e, s[r..], k - 1);
      WalkUnfold(e, s);
      EditRest(e, s, off, Zeros(4));
    }
  }

  lemma ZeroFirstInoWalk(e: Endian, s: Buffer)
    requires Walk(e, s) != []
    ensures RecordOffset(e, s, 0) == 0
    ensures Walk(e, ZeroIno(s, 0)) == Walk(e, s)[0 := Gone(Walk(e, s)[0])]
  {
    hide EntryAt, RecLen;
    ZeroFirstIno(e, s);
    var t, r := ZeroIno(s, 0), RecLen(e, s);
    if r <= |s| {
      SpliceElsewhere(s, Write(0, Zeros(4)), r, |s|);
      assert t[r..] == t[r..|s|] && s[r..] == s[r..|s|];
    }
  }

  // ── zeroing several entries at once ────────────────────────────────────────

  /** `t` is `s` with the inode numbers of the records `ks` zeroed, and nothing else changed. */
  ghost predicate ZeroedAt(e: Endian, s: Buffer, t: Buffer, ks: set<nat>) {
    && |t| == |s|
    && (forall k | k in ks :: k < |Walk(e, s)|)
    && (forall k, i | k in ks && RecordOffset(e, s, k) <= i < RecordOffset(e, s, k) + 4 :: t[i] == 0)
    && (forall i | 0 <= i < |s| && (forall k | k in ks :: i < RecordOffset(e, s, k) || RecordOffset(e, s, k) + 4 <= i) ::
          t[i] == s[i])
  }

  /** A first record that differs in its inode number at most. */
  lemma HeadZeroed(e: Endian, s: Buffer, t: Buffer, zeroed: bool)
    requires Walkable(e, s) && |t| == |s|
    requires forall i | 4 <= i < |s| && i < RecLen(e, s) :: t[i] == s[i]
    requires forall i | 0 <= i < 4 :: t[i] == if zeroed then 0 else s[i]
    ensures Walkable(e, t) && RecLen(e, t) == RecLen(e, s)
    ensures EntryAt(e, t) == if zeroed then Gone(EntryAt(e, s)) else EntryAt(e, s)
  {
    hide Decode, FromDType;
    assert s[4] == t[4] && s[5] == t[5];
    assert t[4..6] == s[4..6];
    DecodeZeros(e, 4);
    assert t[0..4] == if zeroed then Zeros(4) else s[0..4];
    var end := Min(DIRECT_HEAD + Min(ReadU8(s, 7), RecLen(e, s) - DIRECT_HEAD), |s|);
    assert t[DIRECT_HEAD..end] == s[DIRECT_HEAD..end];
  }

  lemma LaterOffset(e: Endian, s: Buffer, k: nat)
    requires 0 < k < |Walk(e, s)|
    ensures Walkable(e, s) && RecLen(e, s) <= |s| && RecordOffset(e, s, k) >= RecLen(e, s) >= DIRECT_HEAD
    ensures k - 1 < |Walk(e, s[RecLen(e, s)..])|
    ensures RecordOffset(e, s, k) == RecLen(e, s) + RecordOffset(e, s[RecLen(e, s)..], k - 1)
  {
    hide RecLen;
    OffsetUnfold(e, s, k);
  }

  ghost function Earlier(ks: set<nat>): set<nat> {
    set k | k in ks && k > 0 :: k - 1
  }

  lemma HeadOfZeroed(e: Endian, s: Buffer, t: Buffer, ks: set<nat>)
    requires ZeroedAt(e, s, t, ks) && Walkable(e, s)
    ensures Walkable(e, t) && RecLen(e, t) == RecLen(e, s)
    ensures EntryAt(e, t) == if 0 in ks then Gone(EntryAt(e, s)) else EntryAt(e, s)
  {
    hide Walk, RecLen, EntryAt;
    forall k | k in ks && k > 0
      ensures RecordOffset(e, s, k) >= RecLen(e, s) >= DIRECT_HEAD
    {
      LaterOffset(e, s, k);
    }
    if 0 in ks {
      assert RecordOffset(e, s, 0) == 0;
    }
    WalkableLength(e, s);
    HeadZeroed(e, s, t, 0 in ks);
  }

  lemma WalkableLength(e: Endian, s: Buffer)
    requires Walkable(e, s)
    ensures RecLen(e, s) >= DIRECT_HEAD && |s| >= DIRECT_HEAD
  {
  }

  lemma EarlierOffset(e: Endian, s: Buffer, ks: set<nat>, k: nat)
    requires k in Earlier(ks) && (forall j | j in ks :: j < |Walk(e, s)|)
    ensures Walkable(e, s) && RecLen(e, s) <= |s| && k + 1 in ks && k + 1 < |Walk(e, s)|
    ensures k < |Walk(e, s[RecLen(e, s)..])|
    ensures RecordOffset(e, s, k + 1) == RecLen(e, s) + RecordOffset(e, s[RecLen(e, s)..], k)
  {
    hide Walk, RecLen, RecordOffset;
    LaterOffset(e, s, k + 1);
  }

  lemma RestOfZeroed(e: Endian, s: Buffer, t: Buffer, ks: set<nat>)
    requires ZeroedAt(e, s, t, ks) && Walkable(e, s) && RecLen(e, s) <= |s|
    ensures ZeroedAt(e, s[RecLen(e, s)..], t[RecLen(e, s)..], Earlier(ks))
  {
    hide Walk, RecLen, RecordOffset, Walkable;
    WalkableLength(e, s);
    var r := RecLen(e, s);
    var rest: Buffer, cut: Buffer := s[r..], t[r..];
    forall k | k in Earlier(ks)
      ensures k < |Walk(e, rest)|
    {
      EarlierOffset(e, s, ks, k);
    }
    forall k, i | k in Earlier(ks) && RecordOffset(e, rest, k) <= i < RecordOffset(e, rest, k) + 4
      ensures cut[i] == 0
    {
      EarlierOffset(e, s, ks, k);
      assert t[r + i] == 0;
    }
    forall i | 0 <= i < |rest| &&
               (forall k | k in Earlier(ks) :: i < RecordOffset(e, rest, k) || RecordOffset(e, rest, k) + 4 <= i)
      ensures cut[i] == rest[i]
    {
      RestUntouched(e, s, ks, i);
      assert t[r + i] == s[r + i];
    }
  }

  lemma RestUntouched(e: Endian, s: Buffer, ks: set<nat>, i: nat)
    requires Walkable(e, s) && RecLen(e, s) <= |s| && forall j | j in ks :: j < |Walk(e, s)|
    requires forall k | k in Earlier(ks) ::
               && k < |Walk(e, s[RecLen(e, s)..])|
               && var off := RecordOffset(e, s[RecLen(e, s)..], k);
                  i < off || off + 4 <= i
    ensures var at := RecLen(e, s) + i;
            forall k | k in ks :: at < RecordOffset(e, s, k) || RecordOffset(e, s, k) + 4 <= at
  {
    hide Walk, RecLen;
    WalkableLength(e, s);
    forall k | k in ks
      ensures RecLen(e, s) + i < RecordOffset(e, s, k) || RecordOffset(e, s, k) + 4 <= RecLen(e, s) + i
    {
      if k > 0 {
        assert k - 1 in Earlier(ks);
        EarlierOffset(e, s, ks, k - 1);
      }
    }
  }

  /** The slots `ks` gone, the others as they were. */
  ghost predicate GoneAt(w: seq<DirEntry>, v: seq<DirEntry>, ks: set<nat>) {
    && |v| == |w|
    && forall j | 0 <= j < |w| :: v[j] == if j in ks then Gone(w[j]) else w[j]
  }

  lemma GoneAfterFirst(x: DirEntry, w: seq<DirEntry>, v: seq<DirEntry>, ks: set<nat>)
    requires GoneAt(w, v, Earlier(ks))
    ensures GoneAt([x] + w, [if 0 in ks then Gone(x) else x] + v, ks)
  {
    forall j | 0 < j
      ensures j in ks <==> j - 1 in Earlier(ks)
    {
    }
  }

  /** Zeroing any set of records deletes those slots under their old names and changes no other. */
  lemma {:induction false} ZeroManyWalk(e: Endian, s: Buffer, t: Buffer, ks: set<nat>)
    requires ZeroedAt(e, s, t, ks)
    ensures GoneAt(Walk(e, s), Walk(e, t), ks)
    decreases |s|
  {
    hide Walk, EntryAt, RecLen, RecordOffset, Walkable, GoneAt, Earlier;
    if !Walkable(e, s) {
      WalkNothing(e, s);
      UntouchedWalk(e, s, t, ks);
    } else {
      WalkableLength(e, s);
      HeadOfZeroed(e, s, t, ks);
      WalkUnfold(e, s);
      WalkUnfold(e, t);
      var r := RecLen(e, s);
      if r <= |s| {
        RestOfZeroed(e, s, t, ks);
        ZeroManyWalk(e, s[r..], t[r..], Earlier(ks));
        GoneAfterFirst(EntryAt(e, s), Walk(e, s[r..]), Walk(e, t[r..]), ks);
      } else {
        OnlyFirst(EntryAt(e, s), ks);
      }
    }
  }

  lemma UntouchedWalk(e: Endian, s: Buffer, t: Buffer, ks: set<nat>)
    requires ZeroedAt(e, s, t, ks) && Walk(e, s) == []
    ensures t == s && GoneAt(Walk(e, s), Walk(e, t), ks)
  {
    hide Walk, RecordOffset;
    assert forall k :: k !in ks;
  }

  lemma OnlyFirst(x: DirEntry, ks: set<nat>)
    ensures GoneAt([x] + [], [if 0 in ks then Gone(x) else x] + [], ks)
  {
  }

  /** A write past the first record leaves it alone. */
  lemma EditAfterFirst(e: Endian, s: Buffer, w: Write)
    requires Walkable(e, s) && RecLen(e, s) <= w.off && w.End() <= |s|
    ensures var t := Splice(s, w);
            Walkable(e, t) && RecLen(e, t) == RecLen(e, s) && EntryAt(e, t) == EntryAt(e, s)
  {
    hide ReadUint, EntryAt;
    SpliceElsewhere(s, w, 0, RecLen(e, s));
    SameRecord(e, s, Splice(s, w));
  }

  /** `d_reclen` of the `k`-th record. */
  ghost function RecLenAt(e: Endian, s: Buffer, k: nat): U16
    requires k < |Walk(e, s)|
  {
    RecLen(e, s[RecordOffset(e, s, k)..])
  }

  /** The recorded name length of the `k`-th record lies within the record. */
  ghost predicate NameFits(e: Endian, s: Buffer, k: nat)
    requires k < |Walk(e, s)|
  {
    ReadU8(s, RecordOffset(e, s, k) + 7) <= RecLenAt(e, s, k) - DIRECT_HEAD
  }

  /** A printed record has its own length where the walk meets it, and its name fits. */
  lemma PrintedLength(e: Endian, before: seq<Record>, first: Record, rest: seq<Record>)
    requires AllValid(before) && first.Valid() && AllValid(rest) && AllValid(before + ([first] + rest))
    requires |Print(e, before + ([first] + rest))| < 0x8000_0000_0000_0000
    ensures |before| < |Walk(e, Print(e, before + ([first] + rest)))|
    ensures RecLenAt(e, Print(e, before + ([first] + rest)), |before|) == first.Reclen()
    ensures NameFits(e, Print(e, before + ([first] + rest)), |before|)
  {
    hide Walk, Print, AllValid, RecordOffset, RecLen;
    var after := [first] + rest;
    PrintFirst(e, first, rest);
    PrintOffset(e, before, after);
    PrintAppend(e, before, after);
    var s, at := Print(e, before + after), |Print(e, before)|;
    assert s[at..] == first.Bytes(e) + Print(e, rest);
    FirstRecord(e, first, Print(e, rest));
    assert s[at + 7] == first.Bytes(e)[7] == |first.name|;
  }

  /** Delete record `k` by adding its length to the record before it, as UFS does. */
  ghost function FoldIntoPrevious(e: Endian, s: Buffer, k: nat): Buffer
    requires 0 < k < |Walk(e, s)|
  {
    Splice(s, Write(RecordOffset(e, s, k - 1) + 4, Encode(e, 2, RecLenAt(e, s, k - 1) + RecLenAt(e, s, k))))
  }

  /** A record given another length: the same slot, with its name cut at the new end. */
  lemma Relength(e: Endian, s: Buffer, len: nat)
    requires Walkable(e, s) && DIRECT_HEAD <= len <= 65535
    ensures var t := Splice(s, Write(4, Encode(e, 2, len)));
            && Walkable(e, t) && RecLen(e, t) == len
            && ReadU8(t, 7) == ReadU8(s, 7)
            && EntryAt(e, t) == EntryAt(e, s).(
                 name := s[DIRECT_HEAD..Min(DIRECT_HEAD + Min(ReadU8(s, 7), len - DIRECT_HEAD), |s|)])
  {
    hide Decode, Encode, FromDType, Pow256;
    var w := Write(4, Encode(e, 2, len));
    var t := Splice(s, w);
    Pow256Values();
    DecodeEncode(e, 2, len);
    assert t[4..6] == w.bytes;
    SpliceElsewhere(s, w, 0, 4);
    SpliceElsewhere(s, w, 6, |s|);
    assert t[6..|s|][0] == s[6] && t[6..|s|][1] == s[7];
    SpliceElsewhere(s, w, DIRECT_HEAD, Min(DIRECT_HEAD + Min(ReadU8(s, 7), len - DIRECT_HEAD), |s|));
  }

  lemma TailAfterRelength(e: Endian, s: Buffer, len: nat)
    requires Walkable(e, s) && DIRECT_HEAD <= len <= 65535
    ensures WalkFrom(e, Splice(s, Write(4, Encode(e, 2, len))), len) == WalkFrom(e, s, len)
  {
    hide Walk, Encode, ReadUint;
    var t := Splice(s, Write(4, Encode(e, 2, len)));
    if len <= |s| {
      SpliceElsewhere(s, Write(4, Encode(e, 2, len)), len, |s|);
      assert t[len..] == t[len..|s|] && s[len..] == s[len..|s|];
    }
  }

  /** Walking a block whose first record is given another length. */
  lemma RelengthWalk(e: Endian, s: Buffer, len: nat)
    requires Walkable(e, s) && DIRECT_HEAD <= len <= 65535
    ensures var grown := s[DIRECT_HEAD..Min(DIRECT_HEAD + Min(ReadU8(s, 7), len - DIRECT_HEAD), |s|)];
            Walk(e, Splice(s, Write(4, Encode(e, 2, len)))) == [EntryAt(e, s).(name := grown)] + WalkFrom(e, s, len)
  {
    hide Walk, RecLen, EntryAt, ReadUint, Encode, Splice;
    Relength(e, s, len);
    TailAfterRelength(e, s, len);
    WalkUnfold(e, Splice(s, Write(4, Encode(e, 2, len))));
  }

  /** Folding the second record into the first removes it, and keeps the first name exactly when it fits. */
  lemma FoldSecond(e: Endian, s: Buffer)
    requires |Walk(e, s)| > 1 && RecLenAt(e, s, 0) + RecLenAt(e, s, 1) <= 65535
    ensures var w, t := Walk(e, s), Walk(e, FoldIntoPrevious(e, s, 1));
            && |t| == |w| - 1 && t[1..] == w[2..]
            && t[0] == w[0].(name := t[0].name)
            && (t[0] == w[0] <==> NameFits(e, s, 0))
  {
    hide Walk, WalkFrom, RecLen, EntryAt, ReadUint, Encode, Splice;
    OffsetUnfold(e, s, 1);
    assert s[0..] == s;
    var r1 := RecLen(e, s);
    var r2 := RecLen(e, s[r1..]);
    WalkSecond(e, s);
    RelengthWalk(e, s, r1 + r2);
    NameGrows(e, s, r1 + r2);
  }

  lemma WalkSecond(e: Endian, s: Buffer)
    requires |Walk(e, s)| > 1
    ensures Walkable(e, s) && RecLen(e, s) <= |s| && Walkable(e, s[RecLen(e, s)..])
    ensures var r1 := RecLen(e, s);
            var rest := s[r1..];
            Walk(e, s) == [EntryAt(e, s)] + ([EntryAt(e, rest)] + WalkFrom(e, s, r1 + RecLen(e, rest)))
  {
    hide RecLen, EntryAt, Walk, RecordOffset;
    OffsetUnfold(e, s, 1);
    var r1 := RecLen(e, s);
    var rest := s[r1..];
    if !Walkable(e, rest) {
      WalkNothing(e, rest);
    }
    WalkUnfold(e, s);
    WalkUnfold(e, rest);
    var r2 := RecLen(e, rest);
    if r1 + r2 <= |s| {
      assert rest[r2..] == s[r1 + r2..];
    }
  }

  lemma NameGrows(e: Endian, s: Buffer, len: nat)
    requires Walkable(e, s) && RecLen(e, s) + DIRECT_HEAD <= |s| && RecLen(e, s) < len
    ensures (s[DIRECT_HEAD..Min(DIRECT_HEAD + Min(ReadU8(s, 7), len - DIRECT_HEAD), |s|)] == EntryAt(e, s).name)
        <==> (ReadU8(s, 7) <= RecLen(e, s) - DIRECT_HEAD)
  {
    hide ReadUint, FromDType;
    var before := EntryAt(e, s).name;
    var after := s[DIRECT_HEAD..Min(DIRECT_HEAD + Min(ReadU8(s, 7), len - DIRECT_HEAD), |s|)];
    assert |after| == |before| <==> ReadU8(s, 7) <= RecLen(e, s) - DIRECT_HEAD;
  }

  /** Folding record `k` drops its slot and can change only its predecessor's name, which it keeps when that fits. */
  lemma {:induction false} FoldShape(e: Endian, s: Buffer, k: nat)
    requires 0 < k < |Walk(e, s)| && RecLenAt(e, s, k - 1) + RecLenAt(e, s, k) <= 65535
    ensures var w, t := Walk(e, s), Walk(e, FoldIntoPrevious(e, s, k));
            && |t| == |w| - 1 && t == w[..k - 1] + [t[k - 1]] + w[k + 1..]
            && t[k - 1] == w[k - 1].(name := t[k - 1].name)
            && (t[k - 1] == w[k - 1] <==> NameFits(e, s, k - 1))
    decreases k
  {
    hide Walk, RecLen, EntryAt, RecordOffset, Encode, Splice, ReadUint;
    var w, t := Walk(e, s), Walk(e, FoldIntoPrevious(e, s, k));
    if k == 1 {
      FoldSecond(e, s);
      assert t == [] + [t[0]] + w[2..];
    } else {
      FoldLater(e, s, k);
      var rest := s[RecLen(e, s)..];
      FoldShape(e, rest, k - 1);
      ShapeAfterFirst(EntryAt(e, s), Walk(e, rest), Walk(e, FoldIntoPrevious(e, rest, k - 1)), k);
    }
  }

  lemma ShapeAfterFirst<T>(x: T, w: seq<T>, t: seq<T>, k: nat)
    requires 1 < k <= |w| && |t| == |w| - 1 && t == w[..k - 2] + [t[k - 2]] + w[k..]
    ensures [x] + t == ([x] + w)[..k - 1] + [([x] + t)[k - 1]] + ([x] + w)[k + 1..]
    ensures ([x] + t)[k - 1] == t[k - 2] && ([x] + w)[k - 1] == w[k - 2]
  {
    assert ([x] + w)[..k - 1] == [x] + w[..k - 2] && ([x] + w)[k + 1..] == w[k..];
  }

  /**
   * Folding record `k` into its predecessor removes exactly that slot, precisely when the predecessor's name
   * length lies within its old record; otherwise the predecessor's name grows over the freed bytes.
   */
  lemma FoldWalk(e: Endian, s: Buffer, k: nat)
    requires 0 < k < |Walk(e, s)| && RecLenAt(e, s, k - 1) + RecLenAt(e, s, k) <= 65535
    ensures Walk(e, FoldIntoPrevious(e, s, k)) == Walk(e, s)[..k] + Walk(e, s)[k + 1..] <==> NameFits(e, s, k - 1)
  {
    hide Walk, RecLenAt, NameFits, FoldIntoPrevious;
    FoldShape(e, s, k);
    var w, t := Walk(e, s), Walk(e, FoldIntoPrevious(e, s, k));
    var u := w[..k] + w[k + 1..];
    assert u[k - 1] == w[k - 1];
    assert w[..k] == w[..k - 1] + [w[k - 1]];
  }

  /** Past the first record, everything about record `k` is about record `k - 1` of what follows. */
  lemma LaterRecord(e: Endian, s: Buffer, k: nat)
    requires 0 < k < |Walk(e, s)|
    ensures Walkable(e, s) && RecLen(e, s) <= |s|
    ensures var rest := s[RecLen(e, s)..];
            && Walk(e, s) == [EntryAt(e, s)] + Walk(e, rest)
            && k - 1 < |Walk(e, rest)|
            && RecordOffset(e, s, k) == RecLen(e, s) + RecordOffset(e, rest, k - 1)
            && RecLenAt(e, rest, k - 1) == RecLenAt(e, s, k)
            && (NameFits(e, rest, k - 1) <==> NameFits(e, s, k))
  {
    hide Walk, RecLen, EntryAt, RecordOffset;
    OffsetUnfold(e, s, k);
    WalkUnfold(e, s);
    var r := RecLen(e, s);
    var rest := s[r..];
    var b := RecordOffset(e, rest, k - 1);
    assert rest[b..] == s[r + b..];
  }

  lemma FoldLater(e: Endian, s: Buffer, k: nat)
    requires 1 < k < |Walk(e, s)|
    requires RecLenAt(e, s, k - 1) + RecLenAt(e, s, k) <= 65535
    ensures Walkable(e, s) && RecLen(e, s) <= |s|
    ensures var rest := s[RecLen(e, s)..];
            && Walk(e, s) == [EntryAt(e, s)] + Walk(e, rest)
            && k - 1 < |Walk(e, rest)|
            && RecLenAt(e, rest, k - 2) == RecLenAt(e, s, k - 1) && RecLenAt(e, rest, k - 1) == RecLenAt(e, s, k)
            && (NameFits(e, rest, k - 2) <==> NameFits(e, s, k - 1))
            && Walk(e, FoldIntoPrevious(e, s, k)) == [EntryAt(e, s)] + Walk(e, FoldIntoPrevious(e, rest, k - 1))
  {
    hide Walk, RecLen, EntryAt, RecordOffset, Encode, ReadUint, RecLenAt, NameFits, Splice;
    LaterRecord(e, s, k);
    LaterRecord(e, s, k - 1);
    var r := RecLen(e, s);
    var a := RecordOffset(e, s[r..], k - 2);
    var bytes := Encode(e, 2, RecLenAt(e, s, k - 1) + RecLenAt(e, s, k));
    EditRest(e, s, a + 4, bytes);
  }

  /** Editing past the first record is editing what follows it. */
  lemma EditRest(e: Endian, s: Buffer, off: nat, bytes: seq<Byte>)
    requires Walkable(e, s) && RecLen(e, s) + off + |bytes| <= |s|
    ensures var r := RecLen(e, s);
            Walk(e, Splice(s, Write(r + off, bytes))) == [EntryAt(e, s)] + Walk(e, Splice(s[r..], Write(off, bytes)))
  {
    hide EntryAt, RecLen, Walk;
    var r := RecLen(e, s);
    var t := Splice(s, Write(r + off, bytes));
    EditAfterFirst(e, s, Write(r + off, bytes));
    WalkUnfold(e, t);
    assert t[r..] == Splice(s[r..], Write(off, bytes));
  }

  lemma LiveSplit(a: seq<DirEntry>, x: DirEntry, b: seq<DirEntry>)
    ensures Live(a + [x] + b) == Live(a) + (if x.deleted then [] else [x]) + Live(b)
  {
    hide Live;
    LiveAppend(a + [x], b);
    LiveAppend(a, [x]);
    LiveOne(x);
  }

  /** Replacing one slot by another that is deleted just when it is changes the live slots unless both are deleted. */
  lemma LiveReplaced(a: seq<DirEntry>, x: DirEntry, y: DirEntry, b: seq<DirEntry>)
    requires x.deleted == y.deleted
    ensures Live(a + [x] + b) == Live(a + [y] + b) <==> x == y || x.deleted
  {
    hide Live;
    LiveSplit(a, x, b);
    LiveSplit(a, y, b);
    if !x.deleted {
      assert (Live(a) + [x] + Live(b))[|Live(a)|] == x && (Live(a) + [y] + Live(b))[|Live(a)|] == y;
    }
  }

  /** Zeroing the inode number of record `k` drops it from the live slots. */
  lemma ZeroedLive(e: Endian, s: Buffer, k: nat)
    requires k < |Walk(e, s)|
    ensures Live(Walk(e, ZeroIno(s, RecordOffset(e, s, k)))) == Live(Walk(e, s)[..k] + Walk(e, s)[k + 1..])
  {
    hide Walk, RecordOffset, ZeroIno, Live;
    var w := Walk(e, s);
    ZeroInoWalk(e, s, k);
    assert w[k := Gone(w[k])] == w[..k] + [Gone(w[k])] + w[k + 1..];
    LiveSplit(w[..k], Gone(w[k]), w[k + 1..]);
    LiveAppend(w[..k], w[k + 1..]);
  }

  /**
   * Zeroing a record's inode number and folding the record away leave the same live slots if and only if the
   * predecessor's name length lies within its record, or the predecessor is itself deleted.
   */
  lemma DeletionsAgreeOnLive(e: Endian, s: Buffer, k: nat)
    requires 0 < k < |Walk(e, s)| && RecLenAt(e, s, k - 1) + RecLenAt(e, s, k) <= 65535
    ensures Live(Walk(e, ZeroIno(s, RecordOffset(e, s, k)))) == Live(Walk(e, s)[..k] + Walk(e, s)[k + 1..])
    ensures Live(Walk(e, ZeroIno(s, RecordOffset(e, s, k)))) == Live(Walk(e, FoldIntoPrevious(e, s, k)))
        <==> NameFits(e, s, k - 1) || Walk(e, s)[k - 1].deleted
  {
    hide Walk, RecordOffset, ZeroIno, FoldIntoPrevious, Live, RecLenAt, NameFits;
    var w, t := Walk(e, s), Walk(e, FoldIntoPrevious(e, s, k));
    ZeroedLive(e, s, k);
    FoldShape(e, s, k);
    assert w[..k] + w[k + 1..] == w[..k - 1] + [w[k - 1]] + w[k + 1..];
    LiveReplaced(w[..k - 1], w[k - 1], t[k - 1], w[k + 1..]);
  }
}
