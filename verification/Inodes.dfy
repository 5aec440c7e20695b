/** Locating and decoding an inode (core/src/inode.rs). */
module Inodes {
  import opened Bytes
  import opened Superblocks
  import opened Gathering
  import opened Images

  const UFS_NDADDR: nat := 12
  const UFS_NIADDR: nat := 3

  datatype FileType =
    | Fifo | CharDevice | Directory | BlockDevice | Regular | Symlink | Socket | Whiteout
    | Other(bits: U16)

  /** Classify the top four bits of a mode word (`di_mode & IFMT`). */
  function FromMode(mode: U16): FileType {
    match mode / 0x1000
    case 1 => Fifo
    case 2 => CharDevice
    case 4 => Directory
    case 6 => BlockDevice
    case 8 => Regular
    case 10 => Symlink
    case 12 => Socket
    case 14 => Whiteout
    case top => Other(top * 0x1000)
  }

  type DirectPointers = s: seq<U64> | |s| == UFS_NDADDR witness Zeros(UFS_NDADDR)
  type IndirectPointers = s: seq<U64> | |s| == UFS_NIADDR witness Zeros(UFS_NIADDR)

  datatype Inode = Inode(
    version: Version,
    mode: U16,
    fileType: FileType,
    nlink: U16,
    size: U64,
    direct: DirectPointers,
    indirect: IndirectPointers,
    fastSymlink: Option<seq<Byte>>)
  {
    predicate IsDir() {
      fileType == Directory
    }

    predicate IsRegular() {
      fileType == Regular
    }
  }

  // ── decoding ───────────────────────────────────────────────────────────────

  /** Where the fields of a dinode sit: whole record, size, direct pointers, indirect pointers. */
  datatype Shape = Shape(len: U64, size: U64, db: U64, ib: U64)

  function ShapeOf(version: Version): Shape {
    match version
    case Ufs1 => Shape(128, 8, 40, 88)
    case Ufs2 => Shape(256, 16, 112, 208)
  }

  function ReadPtr(data: Buffer, version: Version, e: Endian, off: nat): U64 {
    match version
    case Ufs1 => ReadU32(e, data, off)
    case Ufs2 => ReadU64(e, data, off)
  }

  /** The `i`-th pointer of an array at `off`. */
  function PtrReader(data: Buffer, version: Version, e: Endian, off: nat): nat -> U64 {
    i => ReadPtr(data, version, e, off + version.Span(i))
  }

  function Pointers(data: Buffer, version: Version, e: Endian, off: nat, n: nat): (s: seq<U64>)
    ensures |s| == n
  {
    Tabulate(PtrReader(data, version, e, off), n)
  }

  /** The inline target of a symlink short enough to live where the block pointers would be. */
  function InlineTarget(data: Buffer, version: Version, fileType: FileType, size: U64, maxsymlinklen: I32)
    : Option<Buffer>
  {
    if fileType == Symlink && maxsymlinklen > 0 && size <= maxsymlinklen then
      var db := ShapeOf(version).db;
      Get(data, db, db + Min(size, version.Span(UFS_NDADDR + UFS_NIADDR)))
    else
      None
  }

  function ParseDinode(data: Buffer, version: Version, e: Endian, maxsymlinklen: I32): Result<Inode, UfsError> {
    var shape := ShapeOf(version);
    if |data| < shape.len then
      Failure(Truncated("dinode", shape.len, |data|))
    else
      var mode := ReadU16(e, data, 0);
      var fileType := FromMode(mode);
      var size := ReadU64(e, data, shape.size);
      Success(Inode(
        version, mode, fileType, ReadU16(e, data, 2), size,
        Pointers(data, version, e, shape.db, UFS_NDADDR),
        Pointers(data, version, e, shape.ib, UFS_NIADDR),
        InlineTarget(data, version, fileType, size, maxsymlinklen)))
  }

  /** Fill an array from a pointer reader, slot by slot. */
  method FillPointers(slots: array<U64>, read: nat -> U64)
    modifies slots
    ensures slots[..] == Tabulate(read, slots.Length)
  {
    for i := 0 to slots.Length
      invariant forall j | 0 <= j < i :: slots[j] == read(j)
    {
      slots[i] := read(i);
    }
  }

  /** `Inode::parse_with_maxsymlink`: the two pointer arrays are filled in place. */
  method ParseWithMaxSymlink(data: Buffer, version: Version, e: Endian, maxsymlinklen: I32)
    returns (r: Result<Inode, UfsError>)
    ensures r == ParseDinode(data, version, e, maxsymlinklen)
  {
    var shape := ShapeOf(version);
    if |data| < shape.len {
      return Failure(Truncated("dinode", shape.len, |data|));
    }
    var mode := ReadU16(e, data, 0);
    var fileType := FromMode(mode);
    var nlink := ReadU16(e, data, 2);
    var size := ReadU64(e, data, shape.size);
    var direct := new U64[UFS_NDADDR](_ => 0);
    FillPointers(direct, PtrReader(data, version, e, shape.db));
    var indirect := new U64[UFS_NIADDR](_ => 0);
    FillPointers(indirect, PtrReader(data, version, e, shape.ib));
    var inline := InlineTarget(data, version, fileType, size, maxsymlinklen);
    return Success(Inode(version, mode, fileType, nlink, size, direct[..], indirect[..], inline));
  }

  // ── pointer arrays as bytes ────────────────────────────────────────────────

  function PtrBytes(e: Endian, w: nat, ps: seq<nat>): nat -> seq<Byte> {
    (k: nat) => if k < |ps| then Encode(e, w, ps[k]) else Zeros(w)
  }

  lemma {:induction false} GatherSpan(version: Version, f: nat -> seq<Byte>, n: nat)
    requires forall k: nat | k < n :: |f(k)| == version.PtrSize()
    ensures |Gather(f, n)| == version.Span(n)
  {
    if n > 0 {
      GatherSpan(version, f, n - 1);
    }
  }

  function Serialise(version: Version, e: Endian, ps: seq<nat>): (s: seq<Byte>)
    ensures |s| == version.Span(|ps|)
  {
    GatherSpan(version, PtrBytes(e, version.PtrSize(), ps), |ps|);
    Gather(PtrBytes(e, version.PtrSize(), ps), |ps|)
  }

  lemma SerialiseAt(version: Version, e: Endian, ps: seq<nat>, i: nat)
    requires i < |ps|
    ensures version.Span(i) + version.PtrSize() <= version.Span(|ps|)
    ensures Serialise(version, e, ps)[version.Span(i)..version.Span(i) + version.PtrSize()]
              == Encode(e, version.PtrSize(), ps[i])
  {
    hide Encode, Gather;
    var f := PtrBytes(e, version.PtrSize(), ps);
    GatherSpan(version, f, i);
    GatherRow(f, i, |ps|);
  }

  /** Reading pointers and writing them out again gives back the bytes they came from. */
  lemma PointersAreTheirBytes(data: Buffer, version: Version, e: Endian, off: nat, n: nat)
    requires off + version.Span(n) <= |data|
    ensures Serialise(version, e, Pointers(data, version, e, off, n)) == data[off..off + version.Span(n)]
  {
    hide Encode, Decode, Gather, Pow256;
    var ps := Pointers(data, version, e, off, n);
    var f := PtrBytes(e, version.PtrSize(), ps);
    forall k: nat | k < n
      ensures f(k) == data[off + version.Span(k)..off + version.Span(k + 1)]
    {
      EncodeDecode(e, data[off + version.Span(k)..off + version.Span(k + 1)]);
    }
    RowsOfSlice(data, version, off, f, n);
  }

  lemma {:induction false} RowsOfSlice(data: Buffer, version: Version, off: nat, f: nat -> seq<Byte>, n: nat)
    requires off + version.Span(n) <= |data|
    requires forall k: nat | k < n :: f(k) == data[off + version.Span(k)..off + version.Span(k + 1)]
    ensures Gather(f, n) == data[off..off + version.Span(n)]
  {
    hide Gather;
    if n == 0 {
      GatherNone(f);
    } else {
      RowsOfSlice(data, version, off, f, n - 1);
      GatherStep(f, n - 1);
      var at, end := off + version.Span(n - 1), off + version.Span(n);
      assert data[off..end] == data[off..at] + data[at..end];
    }
  }

  /** A pointer stored at the right place is the pointer read from there. */
  lemma StoredPointer(data: Buffer, version: Version, e: Endian, off: nat, ps: seq<nat>, i: nat)
    requires off + version.Span(|ps|) <= |data| && i < |ps|
    requires ps[i] < Pow256(version.PtrSize())
    requires data[off..off + version.Span(|ps|)] == Serialise(version, e, ps)
    ensures ReadPtr(data, version, e, off + version.Span(i)) == ps[i]
  {
    hide Encode, Decode, Serialise, Pow256;
    var w := version.PtrSize();
    SerialiseAt(version, e, ps, i);
    SliceOfSlice(data, off, off + version.Span(|ps|), version.Span(i), version.Span(i) + w);
    DecodeEncode(e, w, ps[i]);
  }

  lemma StoredPointers(data: Buffer, version: Version, e: Endian, off: nat, ps: seq<U64>)
    requires off + version.Span(|ps|) <= |data|
    requires forall p | p in ps :: p < Pow256(version.PtrSize())
    requires data[off..off + version.Span(|ps|)] == Serialise(version, e, ps)
    ensures Pointers(data, version, e, off, |ps|) == ps
  {
    hide Pow256, Serialise;
    forall i | 0 <= i < |ps|
      ensures PtrReader(data, version, e, off)(i) == ps[i]
    {
      assert ps[i] in ps;
      StoredPointer(data, version, e, off, ps, i);
    }
  }

  /**
   * A fast symlink loses nothing: its target is the first `size` bytes of the pointer arrays written back out,
   * direct then indirect (at most 60 bytes on UFS1 and 120 on UFS2).
   */
  lemma FastSymlinkIsThePointerBytes(data: Buffer, version: Version, e: Endian, maxsymlinklen: I32, inode: Inode)
    requires ParseDinode(data, version, e, maxsymlinklen) == Success(inode)
    ensures inode.fastSymlink.Some? <==>
              inode.fileType == Symlink && 0 < maxsymlinklen && inode.size <= maxsymlinklen
    ensures inode.fastSymlink.Some? ==>
              inode.fastSymlink.value ==
              (Serialise(version, e, inode.direct) + Serialise(version, e, inode.indirect))
              [..Min(inode.size, version.Span(15))]
  {
    hide Serialise, Pointers, ReadUint;
    var shape := ShapeOf(version);
    PointersAreTheirBytes(data, version, e, shape.db, UFS_NDADDR);
    PointersAreTheirBytes(data, version, e, shape.ib, UFS_NIADDR);
    var end := shape.db + version.Span(15);
    assert data[shape.db..shape.ib] + data[shape.ib..end] == data[shape.db..end];
    SliceOfSlice(data, shape.db, end, 0, Min(inode.size, version.Span(15)));
  }

  // ── writing a dinode ───────────────────────────────────────────────────────

  ghost function DinodeWrites(version: Version, e: Endian, mode: U16, nlink: U16, size: U64,
                              direct: DirectPointers, indirect: IndirectPointers): seq<Write>
  {
    match version
    case Ufs1 =>
      [Write(0, Encode(e, 2, mode)), Write(2, Encode(e, 2, nlink)), Write(8, Encode(e, 8, size)),
       Write(40, Serialise(version, e, direct)), Write(88, Serialise(version, e, indirect))]
    case Ufs2 =>
      [Write(0, Encode(e, 2, mode)), Write(2, Encode(e, 2, nlink)), Write(16, Encode(e, 8, size)),
       Write(112, Serialise(version, e, direct)), Write(208, Serialise(version, e, indirect))]
  }

  /** Where each field of a UFS2 dinode is. */
  lemma Ufs2Layout(data: Buffer, e: Endian, maxsymlinklen: I32, inode: Inode)
    requires ParseDinode(data, Ufs2, e, maxsymlinklen) == Success(inode)
    ensures |data| >= 256 && inode.version == Ufs2 && inode.fileType == FromMode(inode.mode)
    ensures inode.mode == Decode(e, data[0..2]) && inode.nlink == Decode(e, data[2..4])
    ensures inode.size == Decode(e, data[16..24])
    ensures forall i: nat | i < 12 :: inode.direct[i] == Decode(e, data[112 + 8 * i..120 + 8 * i])
    ensures forall i: nat | i < 3 :: inode.indirect[i] == Decode(e, data[208 + 8 * i..216 + 8 * i])
  {
    hide Decode, FromMode, InlineTarget;
  }

  /** Where each field of a UFS1 dinode is. */
  lemma Ufs1Layout(data: Buffer, e: Endian, maxsymlinklen: I32, inode: Inode)
    requires ParseDinode(data, Ufs1, e, maxsymlinklen) == Success(inode)
    ensures |data| >= 128 && inode.version == Ufs1 && inode.fileType == FromMode(inode.mode)
    ensures inode.mode == Decode(e, data[0..2]) && inode.nlink == Decode(e, data[2..4])
    ensures inode.size == Decode(e, data[8..16])
    ensures forall i: nat | i < 12 :: inode.direct[i] == Decode(e, data[40 + 4 * i..44 + 4 * i])
    ensures forall i: nat | i < 3 :: inode.indirect[i] == Decode(e, data[88 + 4 * i..92 + 4 * i])
  {
    hide Decode, FromMode, InlineTarget;
  }

  /** A dinode is decoded whenever it is whole, and refused otherwise. */
  lemma DinodeRefused(data: Buffer, version: Version, e: Endian, maxsymlinklen: I32)
    ensures var need := if version == Ufs2 then 256 else 128;
            && (ParseDinode(data, version, e, maxsymlinklen).Success? <==> |data| >= need)
            && (|data| < need ==>
                  ParseDinode(data, version, e, maxsymlinklen) == Failure(Truncated("dinode", need, |data|)))
  {
    hide Decode, FromMode, InlineTarget, Pointers;
  }

  /** Decoding a dinode written over any old record gives back every field that addressing uses. */
  lemma DinodeRoundTrip(base: Buffer, version: Version, e: Endian, maxsymlinklen: I32, mode: U16, nlink: U16,
                        size: U64, direct: DirectPointers, indirect: IndirectPointers)
    requires |base| >= ShapeOf(version).len
    requires forall p | p in direct || p in indirect :: p < Pow256(version.PtrSize())
    ensures var ws := DinodeWrites(version, e, mode, nlink, size, direct, indirect);
            && Fits(ws, |base|)
            && var r := ParseDinode(Overlay(base, ws), version, e, maxsymlinklen);
            && r.Success?
            && r.value.mode == mode && r.value.fileType == FromMode(mode) && r.value.nlink == nlink && r.value.size == size
            && r.value.direct == direct && r.value.indirect == indirect
  {
    hide DinodeWrites, Disjoint, InOrder, ParseDinode, Overlay, FromMode, Pow256;
    var ws := DinodeWrites(version, e, mode, nlink, size, direct, indirect);
    DinodeInOrder(version, e, mode, nlink, size, direct, indirect);
    InOrderDisjoint(ws, 0, ShapeOf(version).len);
    var data := Overlay(base, ws);
    OverlayHolds(base, ws);
    DinodeFieldsReadBack(data, version, e, maxsymlinklen, mode, nlink, size, direct, indirect);
  }

  lemma DinodeInOrder(version: Version, e: Endian, mode: U16, nlink: U16, size: U64, direct: DirectPointers,
                      indirect: IndirectPointers)
    ensures InOrder(DinodeWrites(version, e, mode, nlink, size, direct, indirect), 0, ShapeOf(version).len)
  {
    hide Encode, Serialise;
  }

  lemma DinodeFieldsReadBack(data: Buffer, version: Version, e: Endian, maxsymlinklen: I32, mode: U16, nlink: U16,
                             size: U64, direct: DirectPointers, indirect: IndirectPointers)
    requires |data| >= ShapeOf(version).len
    requires forall p | p in direct || p in indirect :: p < Pow256(version.PtrSize())
    requires HoldsAll(data, DinodeWrites(version, e, mode, nlink, size, direct, indirect))
    ensures var r := ParseDinode(data, version, e, maxsymlinklen);
            && r.Success?
            && r.value.mode == mode && r.value.fileType == FromMode(mode) && r.value.nlink == nlink && r.value.size == size
            && r.value.direct == direct && r.value.indirect == indirect
  {
    hide Encode, Decode, Serialise, Pointers, Pow256, FromMode, ReadUint;
    var ws := DinodeWrites(version, e, mode, nlink, size, direct, indirect);
    Pow256Values();
    assert forall i | 0 <= i < 5 :: ws[i] in ws && Holds(data, ws[i]);
    StoredUint(data, e, ws[0].off, 2, mode);
    StoredUint(data, e, ws[1].off, 2, nlink);
    StoredUint(data, e, ws[2].off, 8, size);
    StoredPointers(data, version, e, ws[3].off, direct);
    StoredPointers(data, version, e, ws[4].off, indirect);
  }

  // ── locating ───────────────────────────────────────────────────────────────

  /** Where the code looks for an inode: every step saturates. */
  function InodeStart(sb: Superblock, ino: U64): U64
    requires Addressable(sb)
  {
    var cg := ino / sb.ipg;
    var within := ino % sb.ipg;
    var cgimin := SatAdd(SatMul(cg, sb.fpg), sb.iblkno);
    SatAdd(SatMul(cgimin, sb.fsize), SatMul(within, sb.InodeSize()))
  }

  function ReadInode(p: Buffer, sb: Superblock, ino: U64): Result<Inode, UfsError> {
    if sb.ipg <= 0 then Failure(ImpossibleGeometry("fs_ipg", AsU64(sb.ipg), I64_MAX))
    else if sb.fpg <= 0 then Failure(ImpossibleGeometry("fs_fpg", AsU64(sb.fpg), I64_MAX))
    else if sb.fsize <= 0 then Failure(ImpossibleGeometry("fs_fsize", AsU64(sb.fsize), I64_MAX))
    else if sb.iblkno < 0 then Failure(ImpossibleGeometry("fs_iblkno", AsU64(sb.iblkno), I64_MAX))
    else
      var count := SatMul(sb.ipg, sb.ncg);
      if ino >= count then Failure(InodeOutOfRange(ino, count))
      else
        var start := InodeStart(sb, ino);
        var end := SatAdd(start, sb.InodeSize());
        match Get(p, start, end)
        case None => Failure(Truncated("dinode (located)", end, |p|))
        case Some(slice) => ParseDinode(slice, sb.version, sb.endian, sb.maxsymlinklen)
  }

  predicate Addressable(sb: Superblock) {
    sb.ipg > 0 && sb.fpg > 0 && sb.fsize > 0 && sb.iblkno >= 0
  }

  /** Where a group's inode table starts, in unbounded arithmetic. */
  ghost function TableOffset(sb: Superblock, cg: nat): nat
    requires Addressable(sb)
  {
    var frags: nat := cg * sb.fpg + sb.iblkno;
    frags * sb.fsize
  }

  /** The byte offset of an inode, in unbounded arithmetic. */
  ghost function InodeOffset(sb: Superblock, ino: nat): nat
    requires Addressable(sb)
  {
    var cg: nat, within: nat := ino / sb.ipg, ino % sb.ipg;
    TableOffset(sb, cg) + within * sb.InodeSize()
  }

  lemma InodeStartExact(sb: Superblock, ino: U64)
    requires Addressable(sb)
    ensures InodeStart(sb, ino) == Clamp(InodeOffset(sb, ino))
  {
    var cg: nat, within: nat := ino / sb.ipg, ino % sb.ipg;
    FragmentByteExact(cg, sb.fpg, sb.iblkno, sb.fsize);
    ClampSteps(TableOffset(sb, cg), within * sb.InodeSize());
  }

  /** Group base, fragment offset in the group, fragment size: saturating each step or once at the end. */
  lemma FragmentByteExact(cg: U64, fpg: U64, frag: U64, fsize: U64)
    requires fpg > 0 && fsize > 0
    ensures SatMul(SatAdd(SatMul(cg, fpg), frag), fsize) == Clamp((cg * fpg + frag) * fsize)
  {
    var base: nat := cg * fpg;
    ClampSteps(base, frag);
    ClampSteps(base + frag, fsize);
  }

  /**
   * Locating is exact: a read succeeds precisely when the number is in range and its exact byte range lies in
   * the partition, and then decodes that range. Saturation never redirects a read.
   */
  lemma ReadInodeExact(p: Buffer, sb: Superblock, ino: U64)
    ensures ReadInode(p, sb, ino).Success? <==>
              && Addressable(sb) && ino < sb.ipg * sb.ncg
              && InodeOffset(sb, ino) + sb.InodeSize() <= |p|
    ensures ReadInode(p, sb, ino).Success? ==>
              var at := InodeOffset(sb, ino);
              ReadInode(p, sb, ino) == ParseDinode(p[at..at + sb.InodeSize()], sb.version, sb.endian, sb.maxsymlinklen)
  {
    hide InodeStart, InodeOffset, ParseDinode, SatMul;
    if Addressable(sb) {
      InodeCountExact(sb);
      InodeStartExact(sb, ino);
      var start := InodeStart(sb, ino);
      if start + sb.InodeSize() <= |p| {
        DinodeDecodes(p[start..start + sb.InodeSize()], sb);
      }
    }
  }

  /** Each refusal of a read, in the order it is tried. */
  lemma ReadInodeRefused(p: Buffer, sb: Superblock, ino: U64)
    ensures var r, top := ReadInode(p, sb, ino), 0x1_0000_0000_0000_0000;
            && (sb.ipg <= 0 ==>
                  r == Failure(ImpossibleGeometry("fs_ipg", (sb.ipg + top) % top, 0x7FFF_FFFF_FFFF_FFFF)))
            && (sb.ipg > 0 && sb.fpg <= 0 ==>
                  r == Failure(ImpossibleGeometry("fs_fpg", (sb.fpg + top) % top, 0x7FFF_FFFF_FFFF_FFFF)))
            && (sb.ipg > 0 && sb.fpg > 0 && sb.fsize <= 0 ==>
                  r == Failure(ImpossibleGeometry("fs_fsize", (sb.fsize + top) % top, 0x7FFF_FFFF_FFFF_FFFF)))
            && (sb.ipg > 0 && sb.fpg > 0 && sb.fsize > 0 && sb.iblkno < 0 ==>
                  r == Failure(ImpossibleGeometry("fs_iblkno", (sb.iblkno + top) % top, 0x7FFF_FFFF_FFFF_FFFF)))
            && (Addressable(sb) && ino >= sb.ipg * sb.ncg ==> r == Failure(InodeOutOfRange(ino, sb.ipg * sb.ncg)))
            && (Addressable(sb) && ino < sb.ipg * sb.ncg && r.Failure? ==>
                  r == Failure(Truncated("dinode (located)", Clamp(InodeOffset(sb, ino) + sb.InodeSize()), |p|)))
  {
    hide InodeStart, InodeOffset, ParseDinode, SatMul;
    if Addressable(sb) {
      InodeCountExact(sb);
      InodeStartExact(sb, ino);
      var start := InodeStart(sb, ino);
      ClampSteps(InodeOffset(sb, ino), sb.InodeSize());
      if start + sb.InodeSize() <= |p| {
        DinodeDecodes(p[start..start + sb.InodeSize()], sb);
      }
    }
  }

  /** Where an inode is, for each version. */
  lemma InodePlace(sb: Superblock, ino: nat)
    requires Addressable(sb)
    ensures sb.InodeSize() == (if sb.version == Ufs2 then 256 else 128)
    ensures InodeOffset(sb, ino)
         == (ino / sb.ipg * sb.fpg + sb.iblkno) * sb.fsize + ino % sb.ipg * (if sb.version == Ufs2 then 256 else 128)
  {
  }

  lemma DinodeDecodes(data: Buffer, sb: Superblock)
    requires |data| == sb.InodeSize()
    ensures ParseDinode(data, sb.version, sb.endian, sb.maxsymlinklen).Success?
  {
  }

  /** `fs_ipg * fs_ncg` never saturates. */
  lemma InodeCountExact(sb: Superblock)
    requires sb.ipg > 0
    ensures SatMul(sb.ipg, sb.ncg) == sb.ipg * sb.ncg
  {
    MulBound(sb.ipg, sb.ncg, 0x8000_0000, 0x1_0000_0000);
  }

  /** When a group's inode table fits in its group, smaller inode numbers live strictly earlier. */
  lemma InodesAreDisjoint(sb: Superblock, a: nat, b: nat)
    requires Addressable(sb) && sb.ipg * sb.InodeSize() <= sb.fpg * sb.fsize
    requires a < b
    ensures InodeOffset(sb, a) + sb.InodeSize() <= InodeOffset(sb, b)
  {
    hide InodeOffset, TableOffset;
    var ga, wa, gb, wb := SplitInOrder(sb, a, b);
    if ga == gb {
      SlotEnd(wa, wb, sb.InodeSize());
    } else {
      SlotEnd(wa, sb.ipg, sb.InodeSize());
      TablesAreDisjoint(sb, ga, gb);
    }
  }

  /** Two inode numbers as group and slot: ordered lexicographically. */
  lemma SplitInOrder(sb: Superblock, a: nat, b: nat) returns (ga: nat, wa: nat, gb: nat, wb: nat)
    requires Addressable(sb) && a < b
    ensures wa < sb.ipg && wb < sb.ipg
    ensures ga < gb || (ga == gb && wa < wb)
    ensures InodeOffset(sb, a) == TableOffset(sb, ga) + wa * sb.InodeSize()
    ensures InodeOffset(sb, b) == TableOffset(sb, gb) + wb * sb.InodeSize()
  {
    hide TableOffset;
    ga, wa := a / sb.ipg, a % sb.ipg;
    gb, wb := b / sb.ipg, b % sb.ipg;
    DivisionOrder(a, b, sb.ipg);
  }

  lemma DivisionOrder(a: nat, b: nat, n: nat)
    requires 0 < n && a < b
    ensures a / n < b / n || (a / n == b / n && a % n < b % n)
  {
    var qa, qb := a / n, b / n;
    assert a == qa * n + a % n && b == qb * n + b % n;
    if qb < qa {
      assert qa * n == qb * n + (qa - qb) * n;
      MulBound(1, n, qa - qb, n);
    }
  }

  lemma TablesAreDisjoint(sb: Superblock, a: nat, b: nat)
    requires Addressable(sb) && a < b
    ensures TableOffset(sb, a) + sb.fpg * sb.fsize <= TableOffset(sb, b)
  {
    MulBound(a + 1, sb.fpg, b, sb.fpg);
    var fa: nat, fb: nat := a * sb.fpg + sb.iblkno, b * sb.fpg + sb.iblkno;
    assert fa + sb.fpg <= fb;
    MulBound(fa + sb.fpg, sb.fsize, fb, sb.fsize);
    assert (fa + sb.fpg) * sb.fsize == fa * sb.fsize + sb.fpg * sb.fsize;
  }
}
