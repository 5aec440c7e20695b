/** Superblock decoding and its geometry checks (core/src/superblock.rs). */
module Superblocks {
  import opened Bytes
  import opened Images

  const FS_UFS1_MAGIC: U32 := 0x0001_1954
  const FS_UFS2_MAGIC: U32 := 0x1954_0119
  const SBLOCK_UFS1: U64 := 8192
  const SBLOCK_UFS2: U64 := 65536
  const UFS_ROOTINO: U64 := 2
  const FS_MAGIC_OFF: U64 := 1372
  const SB_MIN_LEN: U64 := 1376
  const MAX_NCG: U64 := 0x100_0000
  const I64_MAX: U64 := 0x7FFF_FFFF_FFFF_FFFF

  datatype Version = Ufs1 | Ufs2 {
    /** Width of an on-disk block pointer. */
    function PtrSize(): U64 {
      match this
      case Ufs1 => 4
      case Ufs2 => 8
    }

    /** Bytes that `n` block pointers take. */
    function Span(n: nat): nat {
      match this
      case Ufs1 => n * 4
      case Ufs2 => n * 8
    }
  }

  /** The errors of core/src/error.rs that the modelled code can return. */
  datatype UfsError =
    | Truncated(structure: string, need: U64, have: U64)
    | BadMagic(offset: U64, bytes: seq<Byte>, le: U32, be: U32)
    | BadCgMagic(found: U32, endian: Endian)
    | ImpossibleGeometry(field: string, value: U64, limit: U64)
    | InodeOutOfRange(ino: U64, count: U64)

  /** The fields of `struct fs` that addressing and the sweeps read. */
  datatype Superblock = Superblock(
    version: Version,
    endian: Endian,
    sblkno: I32,
    cblkno: I32,
    iblkno: I32,
    ncg: U32,
    bsize: I32,
    fsize: I32,
    nindir: I32,
    ipg: I32,
    fpg: I32,
    maxsymlinklen: I32)
  {
    function InodeSize(): U64 {
      match version
      case Ufs1 => 128
      case Ufs2 => 256
    }

    function ValidateGeometry(): Result<(), UfsError> {
      if bsize <= 0 || bsize > 65536 then
        Failure(ImpossibleGeometry("fs_bsize", AsU64(bsize), 65536))
      else if fsize <= 0 || fsize > bsize then
        Failure(ImpossibleGeometry("fs_fsize", AsU64(fsize), AsU64(bsize)))
      else if ncg > MAX_NCG then
        Failure(ImpossibleGeometry("fs_ncg", ncg, MAX_NCG))
      else
        Success(())
    }
  }

  /** Version and byte order from the four magic bytes, little-endian readings first. */
  function DetectMagic(le: U32, be: U32): Option<(Version, Endian)> {
    if le == FS_UFS1_MAGIC then Some((Ufs1, Little))
    else if le == FS_UFS2_MAGIC then Some((Ufs2, Little))
    else if be == FS_UFS1_MAGIC then Some((Ufs1, Big))
    else if be == FS_UFS2_MAGIC then Some((Ufs2, Big))
    else None
  }

  function DecodeFields(data: Buffer, version: Version, e: Endian): (sb: Superblock)
    ensures sb.version == version && sb.endian == e
  {
    Superblock(
      version, e,
      ReadI32(e, data, 8), ReadI32(e, data, 12), ReadI32(e, data, 16),
      ReadU32(e, data, 44), ReadI32(e, data, 48), ReadI32(e, data, 52),
      ReadI32(e, data, 116), ReadI32(e, data, 184), ReadI32(e, data, 188),
      ReadI32(e, data, 1320))
  }

  /** Parse a superblock from the start of `data`. */
  function Parse(data: Buffer): (r: Result<Superblock, UfsError>)
    ensures r.Failure? && r.error.BadMagic? ==> |data| >= SB_MIN_LEN
  {
    if |data| < SB_MIN_LEN then
      Failure(Truncated("superblock", SB_MIN_LEN, |data|))
    else
      var le := ReadU32(Little, data, FS_MAGIC_OFF);
      var be := ReadU32(Big, data, FS_MAGIC_OFF);
      match DetectMagic(le, be)
      case None =>
        Failure(BadMagic(FS_MAGIC_OFF, data[FS_MAGIC_OFF..FS_MAGIC_OFF + 4], le, be))
      case Some(found) =>
        var sb := DecodeFields(data, found.0, found.1);
        match sb.ValidateGeometry()
        case Success(_) => Success(sb)
        case Failure(err) => Failure(err)
  }

  /** Block addressing is defined. */
  predicate HasBlocks(sb: Superblock) {
    sb.bsize > 0 && sb.fsize > 0
  }

  /** What a parsed superblock guarantees to every address computation. */
  ghost predicate Sane(sb: Superblock) {
    && 0 < sb.fsize <= sb.bsize <= 65536
    && sb.ncg <= MAX_NCG
  }

  /**
   * Parsing succeeds exactly when the magic reads as one of the two constants in one of the two orders and
   * the geometry decoded in that order is sane.
   */
  lemma ParseExact(data: Buffer)
    ensures Parse(data).Success? <==>
              && |data| >= 1376
              && exists v: Version, e: Endian ::
                   && ReadU32(e, data, 1372) == (if v == Ufs1 then 0x0001_1954 else 0x1954_0119)
                   && var sb := DecodeFields(data, v, e);
                      0 < sb.fsize <= sb.bsize <= 65536 && sb.ncg <= 0x100_0000
    ensures Parse(data).Success? ==>
              var sb := Parse(data).value;
              && 0 < sb.fsize <= sb.bsize <= 65536 && sb.ncg <= 0x100_0000
              && sb == DecodeFields(data, sb.version, sb.endian)
              && ReadU32(sb.endian, data, 1372) == (if sb.version == Ufs1 then 0x0001_1954 else 0x1954_0119)
  {
    hide Decode, DecodeFields;
    if |data| >= SB_MIN_LEN {
      MagicIsUnambiguous(data[FS_MAGIC_OFF..FS_MAGIC_OFF + 4]);
    }
  }

  /** Each refusal, in the order it is tried. */
  lemma ParseRefused(data: Buffer)
    ensures |data| < 1376 ==> Parse(data) == Failure(Truncated("superblock", 1376, |data|))
    ensures |data| >= 1376 && !Magical(data) ==>
              Parse(data) == Failure(BadMagic(1372, data[1372..1376], ReadU32(Little, data, 1372),
                                              ReadU32(Big, data, 1372)))
    ensures Parse(data).Failure? && |data| >= 1376 && Magical(data) ==>
              exists v: Version, e: Endian ::
                && ReadU32(e, data, 1372) == (if v == Ufs1 then 0x0001_1954 else 0x1954_0119)
                && Parse(data) == Failure(GeometryError(DecodeFields(data, v, e)))
  {
    hide Decode, DecodeFields;
    if Parse(data).Failure? && |data| >= SB_MIN_LEN && Magical(data) {
      var e: Endian :| ReadU32(e, data, 1372) in {0x0001_1954, 0x1954_0119};
      assert e == Little || e == Big;
      var found := DetectMagic(ReadU32(Little, data, FS_MAGIC_OFF), ReadU32(Big, data, FS_MAGIC_OFF)).value;
      assert Parse(data) == Failure(GeometryError(DecodeFields(data, found.0, found.1)));
    }
  }

  ghost predicate Magical(data: Buffer) {
    exists e: Endian :: ReadU32(e, data, 1372) in {0x0001_1954, 0x1954_0119}
  }

  /** The first geometry field out of its bounds. */
  function GeometryError(sb: Superblock): UfsError {
    if !(0 < sb.bsize <= 65536) then ImpossibleGeometry("fs_bsize", AsU64(sb.bsize), 65536)
    else if !(0 < sb.fsize <= sb.bsize) then ImpossibleGeometry("fs_fsize", AsU64(sb.fsize), AsU64(sb.bsize))
    else ImpossibleGeometry("fs_ncg", sb.ncg, 0x100_0000)
  }

  /** No four bytes read as a UFS magic in both orders, so the order of the trials never matters. */
  lemma MagicIsUnambiguous(b: seq<Byte>)
    requires |b| == 4
    ensures Decode(Little, b) in {FS_UFS1_MAGIC, FS_UFS2_MAGIC} ==>
              Decode(Big, b) !in {FS_UFS1_MAGIC, FS_UFS2_MAGIC}
  {
    Decode4(b);
  }

  lemma Decode4(b: seq<Byte>)
    requires |b| == 4
    ensures Decode(Little, b) == b[0] as nat + 0x100 * b[1] as nat + 0x1_0000 * b[2] as nat + 0x100_0000 * b[3] as nat
    ensures Decode(Big, b) == b[3] as nat + 0x100 * b[2] as nat + 0x1_0000 * b[1] as nat + 0x100_0000 * b[0] as nat
  {
    var s := b[1..];
    var t := s[1..];
    assert s[0] == b[1] && t[0] == b[2] && t[1..] == [b[3]];
    assert Decode(Little, t) == t[0] + 256 * Decode(Little, t[1..]);
    var p := b[..3];
    var q := p[..2];
    assert p[2] == b[2] && q[1] == b[1] && q[..1] == [b[0]];
    assert Decode(Big, q) == 256 * Decode(Big, q[..1]) + q[1];
  }

  /** Parsing reads nothing past its 1376 bytes. */
  lemma ParsePrefix(data: Buffer)
    requires |data| >= SB_MIN_LEN
    ensures Parse(data[..SB_MIN_LEN]) == Parse(data)
  {
    forall e: Endian, off: U64 | off + 4 <= SB_MIN_LEN
      ensures ReadU32(e, data[..SB_MIN_LEN], off) == ReadU32(e, data, off)
    {
      ReadInside(e, data, 0, SB_MIN_LEN, off, 4);
    }
    assert data[..SB_MIN_LEN][FS_MAGIC_OFF..FS_MAGIC_OFF + 4] == data[FS_MAGIC_OFF..FS_MAGIC_OFF + 4];
  }

  // ── writing a superblock ───────────────────────────────────────────────────

  /** `i32 as u32`. */
  function AsU32(x: I32): U32 {
    if x >= 0 then x else x + 0x1_0000_0000
  }

  ghost function Word(e: Endian, off: nat, v: U32): Write {
    Write(off, Encode(e, 4, v))
  }

  function MagicOf(version: Version): U32 {
    match version
    case Ufs1 => FS_UFS1_MAGIC
    case Ufs2 => FS_UFS2_MAGIC
  }

  /** The fields of a superblock, each at its place. */
  ghost function SuperblockWrites(sb: Superblock): seq<Write> {
    var e := sb.endian;
    [Word(e, 8, AsU32(sb.sblkno)), Word(e, 12, AsU32(sb.cblkno)), Word(e, 16, AsU32(sb.iblkno)), Word(e, 44, sb.ncg),
     Word(e, 48, AsU32(sb.bsize)), Word(e, 52, AsU32(sb.fsize)), Word(e, 116, AsU32(sb.nindir)),
     Word(e, 184, AsU32(sb.ipg)), Word(e, 188, AsU32(sb.fpg)), Word(e, 1320, AsU32(sb.maxsymlinklen)),
     Word(e, 1372, MagicOf(sb.version))]
  }

  lemma WordReads(data: Buffer, e: Endian, off: nat, v: U32)
    requires Holds(data, Word(e, off, v))
    ensures ReadU32(e, data, off) == v
  {
    hide Encode, Decode;
    Pow256Values();
    StoredUint(data, e, off, 4, v);
  }

  lemma SignedReads(data: Buffer, e: Endian, off: nat, x: I32)
    requires Holds(data, Word(e, off, AsU32(x)))
    ensures ReadI32(e, data, off) == x
  {
    hide Holds, ReadU32;
    WordReads(data, e, off, AsU32(x));
  }

  /** A written superblock decodes field by field. */
  lemma FieldsReadBack(data: Buffer, sb: Superblock)
    requires HoldsAll(data, SuperblockWrites(sb))
    ensures |data| >= SB_MIN_LEN && ReadU32(sb.endian, data, FS_MAGIC_OFF) == MagicOf(sb.version)
    ensures DecodeFields(data, sb.version, sb.endian) == sb
  {
    hide Holds, HoldsAll, Word, ReadU32, ReadI32, AsU32, MagicOf;
    var ws, e := SuperblockWrites(sb), sb.endian;
    HeldAt(data, ws, 0);
    SignedReads(data, e, 8, sb.sblkno);
    HeldAt(data, ws, 1);
    SignedReads(data, e, 12, sb.cblkno);
    HeldAt(data, ws, 2);
    SignedReads(data, e, 16, sb.iblkno);
    HeldAt(data, ws, 3);
    WordReads(data, e, 44, sb.ncg);
    HeldAt(data, ws, 4);
    SignedReads(data, e, 48, sb.bsize);
    HeldAt(data, ws, 5);
    SignedReads(data, e, 52, sb.fsize);
    HeldAt(data, ws, 6);
    SignedReads(data, e, 116, sb.nindir);
    HeldAt(data, ws, 7);
    SignedReads(data, e, 184, sb.ipg);
    HeldAt(data, ws, 8);
    SignedReads(data, e, 188, sb.fpg);
    HeldAt(data, ws, 9);
    SignedReads(data, e, 1320, sb.maxsymlinklen);
    HeldAt(data, ws, 10);
    WordReads(data, e, FS_MAGIC_OFF, MagicOf(sb.version));
    WordEnds(data, e, FS_MAGIC_OFF, MagicOf(sb.version));
  }

  lemma WordEnds(data: Buffer, e: Endian, off: nat, v: U32)
    requires Holds(data, Word(e, off, v))
    ensures off + 4 <= |data|
  {
  }

  /** Parsing undoes writing, for every sane geometry, either version and either byte order. */
  lemma SuperblockRoundTrip(data: Buffer, sb: Superblock)
    requires Sane(sb) && HoldsAll(data, SuperblockWrites(sb))
    ensures Parse(data) == Success(sb)
  {
    hide HoldsAll, SuperblockWrites, DecodeFields, Decode;
    FieldsReadBack(data, sb);
    MagicIsUnambiguous(data[FS_MAGIC_OFF..FS_MAGIC_OFF + 4]);
  }

  lemma SuperblockInOrder(sb: Superblock)
    ensures InOrder(SuperblockWrites(sb), 0, SB_MIN_LEN)
  {
    hide Encode;
  }
}
