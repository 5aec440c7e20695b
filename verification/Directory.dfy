/** Walking the records of a directory block (core/src/dir.rs). */
module Directory {
  import opened Bytes
  import opened Inodes

  const DIRECT_HEAD: nat := 8
  const DIRBLKSIZ: nat := 512

  datatype DirEntryType =
    | DtUnknown | DtFifo | DtCharDevice | DtDirectory | DtBlockDevice | DtRegular | DtSymlink | DtSocket | DtWhiteout
    | DtOther(raw: Byte)

  function FromDType(d: Byte): DirEntryType {
    match d
    case 0 => DtUnknown
    case 1 => DtFifo
    case 2 => DtCharDevice
    case 4 => DtDirectory
    case 6 => DtBlockDevice
    case 8 => DtRegular
    case 10 => DtSymlink
    case 12 => DtSocket
    case 14 => DtWhiteout
    case other => DtOther(other)
  }

  /** The `DT_` number of every kind of entry. */
  lemma DTypeNumbers(d: Byte)
    ensures FromDType(d) == DtUnknown <==> d == 0
    ensures FromDType(d) == DtFifo <==> d == 1
    ensures FromDType(d) == DtCharDevice <==> d == 2
    ensures FromDType(d) == DtDirectory <==> d == 4
    ensures FromDType(d) == DtBlockDevice <==> d == 6
    ensures FromDType(d) == DtRegular <==> d == 8
    ensures FromDType(d) == DtSymlink <==> d == 10
    ensures FromDType(d) == DtSocket <==> d == 12
    ensures FromDType(d) == DtWhiteout <==> d == 14
    ensures FromDType(d).DtOther? ==> FromDType(d).raw == d
  {
  }

  /** An inode's type and an entry's are the same kind. */
  predicate SameKind(f: FileType, t: DirEntryType) {
    match (f, t)
    case (Fifo, DtFifo) => true
    case (CharDevice, DtCharDevice) => true
    case (Directory, DtDirectory) => true
    case (BlockDevice, DtBlockDevice) => true
    case (Regular, DtRegular) => true
    case (Symlink, DtSymlink) => true
    case (Socket, DtSocket) => true
    case (Whiteout, DtWhiteout) => true
    case (Other(bits), DtUnknown) => bits == 0
    case (Other(bits), DtOther(raw)) => bits == raw * 0x1000
    case _ => false
  }

  /** The top four bits of a mode and a `DT_` number name kinds alike (`DTTOIF`). */
  lemma KindsAgree(mode: U16)
    ensures SameKind(FromMode(mode), FromDType(mode / 0x1000))
    ensures FromMode(mode) == Directory <==> 0x4000 <= mode < 0x5000
    ensures FromMode(mode) == Regular <==> 0x8000 <= mode < 0x9000
    ensures FromMode(mode) == Symlink <==> 0xA000 <= mode < 0xB000
  {
  }

  datatype DirEntry = DirEntry(name: seq<Byte>, ino: U32, fileType: DirEntryType, deleted: bool)

  // ── one block ──────────────────────────────────────────────────────────────

  /** `d_reclen` of the record at the start of `s`. */
  function RecLen(e: Endian, s: Buffer): U16 {
    ReadU16(e, s, 4)
  }

  /** The record at the start of `s` can be stepped over. */
  predicate Walkable(e: Endian, s: Buffer) {
    |s| >= DIRECT_HEAD && RecLen(e, s) >= DIRECT_HEAD
  }

  /** The record at the start of `s`, its name cut at the record's end and at the block's. */
  function EntryAt(e: Endian, s: Buffer): DirEntry
    requires Walkable(e, s)
  {
    var ino := ReadU32(e, s, 0);
    var take := Min(ReadU8(s, 7), RecLen(e, s) - DIRECT_HEAD);
    DirEntry(s[DIRECT_HEAD..Min(DIRECT_HEAD + take, |s|)], ino, FromDType(ReadU8(s, 6)), ino == 0)
  }

  /** The slots of a block: step by `d_reclen` until a head no longer fits or cannot be stepped over. */
  function Walk(e: Endian, s: Buffer): seq<DirEntry>
    decreases |s|
  {
    if !Walkable(e, s) then []
    else [EntryAt(e, s)] + (if RecLen(e, s) <= |s| then Walk(e, s[RecLen(e, s)..]) else [])
  }

  /** `walk_block`: the cursor loop. */
  method WalkBlock(block: Buffer, e: Endian, out: seq<DirEntry>) returns (out': seq<DirEntry>)
    ensures out' == out + Walk(e, block)
  {
    hide ReadUint, Walk, WalkFrom, EntryAt, FromDType;
    out' := out;
    var off := 0;
    WalkWhole(e, block);
    while off + DIRECT_HEAD <= |block|
      invariant 0 <= off
      invariant out + Walk(e, block) == out' + WalkFrom(e, block, off)
      decreases |block| - off
    {
      var ino := ReadU32(e, block, off);
      var reclen := ReadU16(e, block, off + 4);
      var dType := ReadU8(block, off + 6);
      var namlen := ReadU8(block, off + 7);
      WalkStep(e, block, off);
      if reclen < DIRECT_HEAD {
        return;
      }
      var nameStart := off + DIRECT_HEAD;
      var take := Min(namlen, reclen - DIRECT_HEAD);
      var nameEnd := Min(nameStart + take, |block|);
      var entry := DirEntry(block[nameStart..nameEnd], ino, FromDType(dType), ino == 0);
      assert entry == SlotAt(e, block, off);
      PushFirst(out', entry, WalkFrom(e, block, off + reclen));
      out' := out' + [entry];
      off := off + reclen;
    }
    WalkStep(e, block, off);
  }

  lemma PushFirst<T>(a: seq<T>, x: T, b: seq<T>)
    ensures a + ([x] + b) == a + [x] + b
  {
  }

  ghost function WalkFrom(e: Endian, block: Buffer, off: nat): seq<DirEntry> {
    if off <= |block| then Walk(e, block[off..]) else []
  }

  lemma WalkWhole(e: Endian, block: Buffer)
    ensures WalkFrom(e, block, 0) == Walk(e, block)
  {
    hide Walk;
    assert block[0..] == block;
  }

  /** The slot whose head sits at `off`. */
  ghost function SlotAt(e: Endian, block: Buffer, off: nat): DirEntry
    requires off + DIRECT_HEAD <= |block| && ReadU16(e, block, off + 4) >= DIRECT_HEAD
  {
    var take := Min(ReadU8(block, off + 7), ReadU16(e, block, off + 4) - DIRECT_HEAD);
    var ino := ReadU32(e, block, off);
    DirEntry(block[off + DIRECT_HEAD..Min(off + DIRECT_HEAD + take, |block|)], ino,
             FromDType(ReadU8(block, off + 6)), ino == 0)
  }

  lemma EntryInside(e: Endian, block: Buffer, off: nat)
    requires off + DIRECT_HEAD <= |block| && ReadU16(e, block, off + 4) >= DIRECT_HEAD
    ensures Walkable(e, block[off..]) && EntryAt(e, block[off..]) == SlotAt(e, block, off)
  {
    hide ReadU16, ReadU32, ReadU8, FromDType;
    HeadInside(block, e, off);
    var rest := block[off..];
    var take := Min(ReadU8(rest, 7), RecLen(e, rest) - DIRECT_HEAD);
    SliceOfSlice(block, off, |block|, DIRECT_HEAD, Min(DIRECT_HEAD + take, |rest|));
    assert block[off..|block|] == rest;
  }

  /** One turn of the cursor loop. */
  lemma WalkStep(e: Endian, block: Buffer, off: nat)
    ensures WalkFrom(e, block, off) ==
              if off + DIRECT_HEAD <= |block| && ReadU16(e, block, off + 4) >= DIRECT_HEAD
              then [SlotAt(e, block, off)] + WalkFrom(e, block, off + ReadU16(e, block, off + 4))
              else []
  {
    hide ReadU16, EntryAt, SlotAt;
    if off + DIRECT_HEAD <= |block| {
      HeadInside(block, e, off);
      var rest, reclen := block[off..], ReadU16(e, block, off + 4);
      if reclen >= DIRECT_HEAD {
        EntryInside(e, block, off);
        if off + reclen <= |block| {
          assert rest[reclen..] == block[off + reclen..];
        }
      }
    }
  }

  lemma HeadInside(block: Buffer, e: Endian, off: nat)
    requires off + DIRECT_HEAD <= |block|
    ensures ReadU32(e, block[off..], 0) == ReadU32(e, block, off)
    ensures ReadU16(e, block[off..], 4) == ReadU16(e, block, off + 4)
    ensures ReadU8(block[off..], 6) == ReadU8(block, off + 6)
    ensures ReadU8(block[off..], 7) == ReadU8(block, off + 7)
  {
    hide ReadUint;
    assert block[off..] == block[off..|block|];
    ReadInside(e, block, off, |block|, 0, 4);
    ReadInside(e, block, off, |block|, 4, 2);
  }

  /** The slots after the first. */
  ghost function WalkRest(e: Endian, s: Buffer): seq<DirEntry>
    requires Walkable(e, s)
  {
    WalkFrom(e, s, RecLen(e, s))
  }

  lemma WalkUnfold(e: Endian, s: Buffer)
    requires Walkable(e, s)
    ensures Walk(e, s) == [EntryAt(e, s)] + WalkRest(e, s)
  {
  }

  /** On any bytes at all, a block holds at most one record per eight bytes. */
  lemma {:induction false} WalkBound(e: Endian, s: Buffer)
    ensures DIRECT_HEAD * |Walk(e, s)| <= |s|
    decreases |s|
  {
    hide ReadUint;
    if Walkable(e, s) && RecLen(e, s) <= |s| {
      WalkBound(e, s[RecLen(e, s)..]);
    }
  }

  /** Every slot is live or deleted according to its inode number alone. */
  lemma {:induction false} WalkDeleted(e: Endian, s: Buffer, x: DirEntry)
    requires x in Walk(e, s)
    ensures x.deleted <==> x.ino == 0
    decreases |s|
  {
    hide ReadUint;
    if x != EntryAt(e, s) {
      WalkDeleted(e, s[RecLen(e, s)..], x);
    }
  }

  // ── composition ────────────────────────────────────────────────────────────

  /** Where the cursor stops. */
  function WalkEnd(e: Endian, s: Buffer): nat
    decreases |s|
  {
    if !Walkable(e, s) then 0
    else RecLen(e, s) + (if RecLen(e, s) <= |s| then WalkEnd(e, s[RecLen(e, s)..]) else 0)
  }

  /** The records of `s` tile it exactly. */
  predicate Tiled(e: Endian, s: Buffer) {
    WalkEnd(e, s) == |s|
  }

  /** A record that lies within its block is read from its own bytes only. */
  lemma SameRecord(e: Endian, s: Buffer, t: Buffer)
    requires Walkable(e, s) && RecLen(e, s) <= |s| && RecLen(e, s) <= |t|
    requires s[..RecLen(e, s)] == t[..RecLen(e, s)]
    ensures Walkable(e, t) && RecLen(e, t) == RecLen(e, s) && EntryAt(e, t) == EntryAt(e, s)
  {
    hide ReadUint, FromDType;
    var a := s[..RecLen(e, s)];
    SameRecordHead(e, s, a);
    SameRecordHead(e, t, a);
    assert forall i | 0 <= i < |a| :: s[i] == a[i] && t[i] == a[i];
  }

  lemma SameRecordHead(e: Endian, s: Buffer, a: Buffer)
    requires DIRECT_HEAD <= |a| && a <= s
    ensures ReadU32(e, s, 0) == ReadU32(e, a, 0) && RecLen(e, s) == RecLen(e, a)
  {
    hide ReadUint;
    assert s[0..|a|] == a;
    ReadInside(e, s, 0, |a|, 0, 4);
    ReadInside(e, s, 0, |a|, 4, 2);
  }

  /** Walking is compositional: after records that tile `a` exactly, the walk goes on with `b`. */
  lemma {:induction false} WalkAppend(e: Endian, a: Buffer, b: Buffer)
    requires |a + b| < 0x8000_0000_0000_0000
    requires Tiled(e, a)
    ensures Walk(e, a + b) == Walk(e, a) + Walk(e, b)
    ensures WalkEnd(e, a + b) == |a| + WalkEnd(e, b)
    decreases |a|
  {
    hide RecLen, EntryAt, Walk, WalkEnd;
    if a == [] {
      WalkNothing(e, a);
      assert a + b == b;
    } else {
      EndUnfold(e, a);
      var r := RecLen(e, a);
      SameRecord(e, a, a + b);
      assert (a + b)[r..] == a[r..] + b;
      WalkAppend(e, a[r..], b);
      WalkUnfold(e, a);
      WalkUnfold(e, a + b);
      EndUnfold(e, a + b);
    }
  }

  /** The cursor either stops at the head of `s` or steps over one record. */
  lemma EndUnfold(e: Endian, s: Buffer)
    ensures WalkEnd(e, s) ==
              if !Walkable(e, s) then 0
              else RecLen(e, s) + (if RecLen(e, s) <= |s| then WalkEnd(e, s[RecLen(e, s)..]) else 0)
    ensures s != [] && Tiled(e, s) ==> Walkable(e, s) && RecLen(e, s) <= |s| && Tiled(e, s[RecLen(e, s)..])
  {
    hide ReadUint;
  }

  /** Blocks that each tile exactly may be walked as one. */
  lemma {:induction false} WalkChunks(e: Endian, chunks: seq<Buffer>)
    requires forall c | c in chunks :: Tiled(e, c)
    requires |Flat(chunks)| < 0x8000_0000_0000_0000
    ensures Tiled(e, Flat(chunks))
    ensures Walk(e, Flat(chunks)) == WalkEach(e, chunks)
    decreases |chunks|
  {
    hide Walk, WalkEnd;
    if chunks == [] {
      WalkNothing(e, []);
    } else {
      var front, last := chunks[..|chunks| - 1], chunks[|chunks| - 1];
      assert forall c | c in front :: c in chunks;
      assert last in chunks;
      WalkChunks(e, front);
      WalkAppend(e, Flat(front), last);
    }
  }

  ghost function Flat(chunks: seq<Buffer>): seq<Byte> {
    if chunks == [] then [] else Flat(chunks[..|chunks| - 1]) + chunks[|chunks| - 1]
  }

  ghost function WalkEach(e: Endian, chunks: seq<Buffer>): seq<DirEntry> {
    if chunks == [] then [] else WalkEach(e, chunks[..|chunks| - 1]) + Walk(e, chunks[|chunks| - 1])
  }

  /** A block that opens with a zero `d_reclen` holds no slot. */
  lemma WalkNothing(e: Endian, s: Buffer)
    requires !Walkable(e, s)
    ensures Walk(e, s) == [] && WalkEnd(e, s) == 0
  {
  }

  lemma WalkZeros(e: Endian, n: nat)
    requires n < 0x8000_0000_0000_0000
    ensures Walk(e, Zeros(n)) == []
  {
    if n >= DIRECT_HEAD {
      assert Zeros(n)[4..6] == Zeros(2);
      DecodeZeros(e, 2);
    }
  }

  // ── live slots ─────────────────────────────────────────────────────────────

  /** The slots a live listing shows. */
  function Live(es: seq<DirEntry>): seq<DirEntry> {
    if es == [] then []
    else Live(es[..|es| - 1]) + (if es[|es| - 1].deleted then [] else [es[|es| - 1]])
  }

  lemma LiveNone()
    ensures Live([]) == []
  {
  }

  lemma LiveOne(x: DirEntry)
    ensures Live([x]) == if x.deleted then [] else [x]
  {
    assert Live([x][..0]) == [];
  }

  lemma {:induction false} LiveAppend(a: seq<DirEntry>, b: seq<DirEntry>)
    ensures Live(a + b) == Live(a) + Live(b)
    decreases |b|
  {
    if b == [] {
      assert a + b == a;
    } else {
      assert (a + b)[..|a + b| - 1] == a + b[..|b| - 1];
      LiveAppend(a, b[..|b| - 1]);
    }
  }
}
