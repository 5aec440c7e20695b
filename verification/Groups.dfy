/** Cylinder-group headers and their inode bitmaps (core/src/cg.rs and the helpers of forensic/src/lib.rs). */
module Groups {
  import opened Bytes
  import opened Superblocks
  import opened Inodes
  import opened BlockMap
  import opened Radix

  const CG_MAGIC: U32 := 0x0009_0255
  const CG_MIN_LEN: U64 := 124
  const CG_MAGIC_OFF: U64 := 4
  const CG_IUSEDOFF: U64 := 92

  /** The one header field the sweeps need. */
  datatype CylinderGroup = CylinderGroup(iusedoff: U32)

  function ParseGroup(data: Buffer, e: Endian): Result<CylinderGroup, UfsError> {
    if |data| < CG_MIN_LEN then Failure(Truncated("cylinder group", CG_MIN_LEN, |data|))
    else
      var magic := ReadU32(e, data, CG_MAGIC_OFF);
      if magic != CG_MAGIC then Failure(BadCgMagic(magic, e))
      else Success(CylinderGroup(ReadU32(e, data, CG_IUSEDOFF)))
  }

  /** Byte offset of fragment `frag` of group `cg`, as the code computes it. */
  function GroupByte(sb: Superblock, cg: U64, frag: U64): U64
    requires sb.fpg > 0 && sb.fsize > 0
  {
    SatMul(SatAdd(SatMul(cg, sb.fpg), frag), sb.fsize)
  }

  /** The same offset in unbounded arithmetic. */
  function GroupOffset(sb: Superblock, cg: nat, frag: nat): nat
    requires sb.fpg > 0 && sb.fsize > 0
  {
    var frags: nat := cg * sb.fpg + frag;
    frags * sb.fsize
  }

  lemma GroupByteExact(sb: Superblock, cg: U64, frag: U64)
    requires sb.fpg > 0 && sb.fsize > 0
    ensures GroupByte(sb, cg, frag) == Clamp(GroupOffset(sb, cg, frag))
  {
    FragmentByteExact(cg, sb.fpg, frag, sb.fsize);
  }

  predicate HasGroups(sb: Superblock) {
    sb.fsize > 0 && sb.fpg > 0 && sb.cblkno >= 0 && sb.ipg > 0
  }

  /** Bytes of an inode bitmap. */
  function BitmapLen(sb: Superblock): U64
    requires sb.ipg > 0
  {
    DivCeil(sb.ipg, 8)
  }

  /** The inode bitmap of group `cg`. */
  function CgInodeBitmap(p: Buffer, sb: Superblock, cg: U64): Option<Buffer> {
    if !HasGroups(sb) then None
    else
      match Get(p, GroupByte(sb, cg, sb.cblkno), |p|)
      case None => None
      case Some(header) =>
        match ParseGroup(header, sb.endian)
        case Failure(_) => None
        case Success(group) => Get(header, group.iusedoff, SatAdd(group.iusedoff, BitmapLen(sb)))
  }

  /** Where the header of group `cg` sits. */
  function HeaderAt(sb: Superblock, cg: nat): nat
    requires HasGroups(sb)
  {
    GroupOffset(sb, cg, sb.cblkno)
  }

  /** Where its inode bitmap sits, according to the header. */
  function BitmapAt(p: Buffer, sb: Superblock, cg: nat): nat
    requires HasGroups(sb)
  {
    HeaderAt(sb, cg) + ReadU32(sb.endian, p, HeaderAt(sb, cg) + CG_IUSEDOFF)
  }

  /** A group has a bitmap exactly when its header is present with the right magic and the bitmap fits. */
  predicate HasBitmap(p: Buffer, sb: Superblock, cg: nat) {
    && HasGroups(sb)
    && HeaderAt(sb, cg) + CG_MIN_LEN <= |p|
    && ReadU32(sb.endian, p, HeaderAt(sb, cg) + CG_MAGIC_OFF) == CG_MAGIC
    && BitmapAt(p, sb, cg) + BitmapLen(sb) <= |p|
  }

  lemma CgInodeBitmapExact(p: Buffer, sb: Superblock, cg: U64)
    ensures CgInodeBitmap(p, sb, cg).Some? <==> HasBitmap(p, sb, cg)
    ensures HasBitmap(p, sb, cg) ==>
              var at := BitmapAt(p, sb, cg);
              CgInodeBitmap(p, sb, cg).value == p[at..at + BitmapLen(sb)]
  {
    hide GroupOffset, GroupByte, ReadUint, DivCeil;
    if HasGroups(sb) {
      GroupByteExact(sb, cg, sb.cblkno);
      var at := HeaderAt(sb, cg);
      if at + CG_MIN_LEN <= |p| {
        var header: Buffer := p[at..];
        assert header == p[at..|p|];
        ReadInside(sb.endian, p, at, |p|, CG_MAGIC_OFF, 4);
        ReadInside(sb.endian, p, at, |p|, CG_IUSEDOFF, 4);
        var off := ReadU32(sb.endian, header, CG_IUSEDOFF);
        if at + off + BitmapLen(sb) <= |p| {
          SliceOfSlice(p, at, |p|, off, off + BitmapLen(sb));
        }
      }
    }
  }

  /** The bytes that decide: a magic at 4, the bitmap's place at 92, one bit for each inode of the group. */
  lemma BitmapBytes(p: Buffer, sb: Superblock, cg: U64, h: nat, len: nat)
    requires sb.fsize > 0 && sb.fpg > 0 && sb.cblkno >= 0 && sb.ipg > 0
    requires h == (cg * sb.fpg + sb.cblkno) * sb.fsize && len == (sb.ipg + 7) / 8
    ensures CgInodeBitmap(p, sb, cg).Some? <==>
              && h + 124 <= |p| && Decode(sb.endian, p[h + 4..h + 8]) == 0x0009_0255
              && h + Decode(sb.endian, p[h + 92..h + 96]) + len <= |p|
    ensures CgInodeBitmap(p, sb, cg).Some? ==>
              var at := h + Decode(sb.endian, p[h + 92..h + 96]);
              CgInodeBitmap(p, sb, cg).value == p[at..at + len]
  {
    hide Decode, CgInodeBitmap, HeaderAt, BitmapLen;
    CgInodeBitmapExact(p, sb, cg);
    HeaderPlace(sb, cg, h, len);
  }

  lemma HeaderPlace(sb: Superblock, cg: U64, h: nat, len: nat)
    requires sb.fsize > 0 && sb.fpg > 0 && sb.cblkno >= 0 && sb.ipg > 0
    requires h == (cg * sb.fpg + sb.cblkno) * sb.fsize && len == (sb.ipg + 7) / 8
    ensures HasGroups(sb) && HeaderAt(sb, cg) == h && BitmapLen(sb) == len
  {
  }

  /** Unusable geometry has no bitmaps. */
  lemma NoBitmap(p: Buffer, sb: Superblock, cg: U64)
    requires sb.fsize <= 0 || sb.fpg <= 0 || sb.cblkno < 0 || sb.ipg <= 0
    ensures CgInodeBitmap(p, sb, cg) == None
  {
  }

  // ── bits ───────────────────────────────────────────────────────────────────

  function Shr(b: Byte, k: nat): Byte {
    if k == 0 then b else Shr(b / 2, k - 1)
  }

  /** Bit `idx` of a bitmap, least significant first within a byte. */
  function BitmapBit(bitmap: Buffer, idx: nat): bool {
    idx / 8 < |bitmap| && Shr(bitmap[idx / 8], idx % 8) % 2 == 1
  }

  /** Shifting right is dividing by a power of two. */
  lemma {:induction false} ShrDivides(b: Byte, k: nat)
    ensures Pow(2, k) > 0 && Shr(b, k) == b / Pow(2, k)
    decreases k
  {
    PowPositive(2, k);
    if k > 0 {
      ShrDivides(b / 2, k - 1);
      PowPositive(2, k - 1);
      var q, r := DivMod(b / 2, Pow(2, k - 1));
      assert b == q * Pow(2, k) + (r * 2 + b % 2) by {
        assert Pow(2, k) == 2 * Pow(2, k - 1);
        assert b == 2 * (b / 2) + b % 2;
        assert 2 * (q * Pow(2, k - 1)) == q * (2 * Pow(2, k - 1));
      }
      DivModUnique(b, Pow(2, k), q, r * 2 + b % 2);
    }
  }

  /** Bit `idx` is bit `idx % 8`, counted from the least significant, of byte `idx / 8`; past the end it is clear. */
  lemma BitPlace(bitmap: Buffer, idx: nat)
    ensures Pow(2, idx % 8) > 0
    ensures BitmapBit(bitmap, idx) <==> idx / 8 < |bitmap| && bitmap[idx / 8] / Pow(2, idx % 8) % 2 == 1
  {
    hide Shr, Pow;
    PowPositive(2, idx % 8);
    if idx / 8 < |bitmap| {
      ShrDivides(bitmap[idx / 8], idx % 8);
    }
  }

  /** Every bit a sweep asks for is in the bitmap. */
  lemma BitInRange(p: Buffer, sb: Superblock, cg: U64, within: nat)
    requires sb.ipg > 0 && within < sb.ipg && CgInodeBitmap(p, sb, cg).Some?
    ensures within / 8 < |CgInodeBitmap(p, sb, cg).value|
  {
    hide CgInodeBitmap, BitmapAt, HasBitmap;
    CgInodeBitmapExact(p, sb, cg);
    BitmapCoversGroup(p, sb, cg);
    assert within / 8 < DivCeil(sb.ipg, 8);
  }

  lemma BitmapCoversGroup(p: Buffer, sb: Superblock, cg: nat)
    requires HasBitmap(p, sb, cg)
    ensures BitmapAt(p, sb, cg) + BitmapLen(sb) <= |p|
    ensures |p[BitmapAt(p, sb, cg)..BitmapAt(p, sb, cg) + BitmapLen(sb)]| == BitmapLen(sb)
  {
    hide GroupOffset, ReadUint, DivCeil;
  }

  /** Inodes in the filesystem. */
  function InodeCount(sb: Superblock): U64 {
    if sb.ipg > 0 then SatMul(sb.ipg, sb.ncg) else 0
  }

  /** Whether an inode is marked in use; `None` when its group has no readable bitmap. */
  function InodeUsed(p: Buffer, sb: Superblock, ino: U64): Option<bool> {
    if sb.ipg <= 0 then None
    else
      match CgInodeBitmap(p, sb, Div(ino, sb.ipg))
      case None => None
      case Some(bitmap) => Some(BitmapBit(bitmap, Rem(ino, sb.ipg)))
  }

  // ── sweeping group by group ────────────────────────────────────────────────

  /** `base` is the first inode of group `cg`. */
  ghost predicate AtGroup(sb: Superblock, cg: nat, base: nat) {
    sb.ipg > 0 && base == cg * sb.ipg
  }

  lemma FirstGroup(sb: Superblock)
    requires sb.ipg > 0
    ensures AtGroup(sb, 0, 0)
  {
  }

  lemma NextGroup(sb: Superblock, cg: nat, base: nat)
    requires AtGroup(sb, cg, base)
    ensures AtGroup(sb, cg + 1, base + sb.ipg)
  {
    assert (cg + 1) * sb.ipg == cg * sb.ipg + sb.ipg;
  }

  lemma LastGroup(sb: Superblock, base: nat)
    requires AtGroup(sb, sb.ncg, base)
    ensures base == InodeCount(sb)
  {
    InodeCountExact(sb);
  }

  /** Slot `within` of a group is inode `base + within`, and its used bit is that bit of the group's bitmap. */
  lemma GroupInode(p: Buffer, sb: Superblock, cg: U64, base: nat, within: nat)
    requires AtGroup(sb, cg, base) && cg < sb.ncg && within < sb.ipg
    ensures base + within < InodeCount(sb)
    ensures SatAdd(SatMul(cg, sb.ipg), within) == base + within
    ensures InodeUsed(p, sb, base + within) ==
              match CgInodeBitmap(p, sb, cg)
              case None => None
              case Some(bitmap) => Some(BitmapBit(bitmap, within))
  {
    hide CgInodeBitmap, BitmapBit;
    InodeCountExact(sb);
    SlotEnd(cg, sb.ncg, sb.ipg);
    DivModUnique(base + within, sb.ipg, cg, within);
  }
}
