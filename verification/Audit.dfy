/** The image auditor: primary superblock, geometry, per-group checks and orphaned inodes (forensic/src/lib.rs). */
module Audit {
  import opened Bytes
  import opened Gathering
  import opened Superblocks
  import opened Inodes
  import opened Traversal
  import opened Completeness
  import opened Groups

  datatype Anomaly =
    | SuperblockMagicInvalid(at: U64, bytes: seq<Byte>)
    | BackupSuperblockDivergence(cg: U64, field: string, primary: U64, backup: U64, offset: U64)
    | CgMagicInvalid(cg: U64, found: U32, offset: U64)
    | OrphanedInode(inode: U64, nlink: U16)
    | GeometryBeyondImage(name: string, value: U64, limit: U64)

  // ── the primary superblock ─────────────────────────────────────────────────

  datatype SbError = MagicInvalid(offset: U64, bytes: seq<Byte>) | NotUfs

  /** Try these offsets in turn; a full-sized region with a wrong magic ends the search. */
  function ParseFirst(p: Buffer, offs: seq<U64>): Result<Superblock, SbError>
    decreases |offs|
  {
    if offs == [] then Failure(NotUfs)
    else
      match Get(p, offs[0], |p|)
      case None => ParseFirst(p, offs[1..])
      case Some(slice) =>
        match Parse(slice)
        case Success(sb) => Success(sb)
        case Failure(BadMagic(_, bytes, _, _)) => Failure(MagicInvalid(Clamp(offs[0] + FS_MAGIC_OFF), bytes))
        case Failure(_) => ParseFirst(p, offs[1..])
  }

  function ParsePrimarySb(p: Buffer): Result<Superblock, SbError> {
    ParseFirst(p, [SBLOCK_UFS2, SBLOCK_UFS1])
  }

  /** `UfsFs::open`: the UFS2 offset, or else the UFS1 offset. */
  function Open(p: Buffer): Option<Superblock> {
    match ParseAt(p, SBLOCK_UFS2)
    case Some(sb) => Some(sb)
    case None => ParseAt(p, SBLOCK_UFS1)
  }

  function ParseAt(p: Buffer, off: U64): Option<Superblock> {
    if off > |p| then None
    else
      match Parse(p[off..])
      case Success(sb) => Some(sb)
      case Failure(_) => None
  }

  /** A superblock-sized region at the UFS2 offset carries no UFS magic. */
  predicate ForeignAtUfs2(p: Buffer) {
    && SBLOCK_UFS2 + SB_MIN_LEN <= |p|
    && Parse(p[SBLOCK_UFS2..]).Failure?
    && Parse(p[SBLOCK_UFS2..]).error.BadMagic?
  }

  /**
   * The auditor and the mounter settle on the same superblock precisely when the mounter finds none or the UFS2
   * region is not a full-sized foreign one: the auditor then never looks at the UFS1 offset.
   */
  lemma PrimaryMatchesOpen(p: Buffer)
    ensures (match ParsePrimarySb(p)
             case Success(sb) => Open(p) == Some(sb)
             case Failure(_) => Open(p) == None)
        <==> (ForeignAtUfs2(p) ==> ParseAt(p, SBLOCK_UFS1) == None)
    ensures ForeignAtUfs2(p) ==> ParsePrimarySb(p).Failure? && ParsePrimarySb(p).error.MagicInvalid?
  {
    hide Parse;
    var offs := [SBLOCK_UFS2, SBLOCK_UFS1];
    assert offs[1..] == [SBLOCK_UFS1] && [SBLOCK_UFS1][1..] == [];
    FirstUnfold(p, offs);
    FirstUnfold(p, [SBLOCK_UFS1]);
    FirstUnfold(p, []);
    if SBLOCK_UFS2 <= |p| {
      BadMagicIsWhole(p[SBLOCK_UFS2..]);
      assert p[SBLOCK_UFS2..] == p[SBLOCK_UFS2..|p|];
    }
    if SBLOCK_UFS1 <= |p| {
      assert p[SBLOCK_UFS1..] == p[SBLOCK_UFS1..|p|];
    }
  }

  lemma FirstUnfold(p: Buffer, offs: seq<U64>)
    ensures ParseFirst(p, offs) ==
              if offs == [] then Failure(NotUfs)
              else
                match Get(p, offs[0], |p|)
                case None => ParseFirst(p, offs[1..])
                case Some(slice) =>
                  match Parse(slice)
                  case Success(sb) => Success(sb)
                  case Failure(BadMagic(_, bytes, _, _)) => Failure(MagicInvalid(Clamp(offs[0] + FS_MAGIC_OFF), bytes))
                  case Failure(_) => ParseFirst(p, offs[1..])
  {
    hide Parse;
  }

  lemma BadMagicIsWhole(data: Buffer)
    ensures Parse(data).Failure? && Parse(data).error.BadMagic? ==> |data| >= SB_MIN_LEN
  {
  }

  lemma PrimaryIsSane(p: Buffer)
    ensures ParsePrimarySb(p).Success? ==> Sane(ParsePrimarySb(p).value)
  {
    hide Parse;
    var offs := [SBLOCK_UFS2, SBLOCK_UFS1];
    assert offs[1..] == [SBLOCK_UFS1] && [SBLOCK_UFS1][1..] == [];
    FirstUnfold(p, offs);
    FirstUnfold(p, [SBLOCK_UFS1]);
    FirstUnfold(p, []);
    if SBLOCK_UFS2 <= |p| {
      ParseExact(p[SBLOCK_UFS2..|p|]);
    }
    if SBLOCK_UFS1 <= |p| {
      ParseExact(p[SBLOCK_UFS1..|p|]);
    }
  }

  /** The verdict, region by region: 65536 first, and 8192 only when that is short or has bad geometry. */
  lemma PrimaryVerdict(p: Buffer)
    ensures ParsePrimarySb(p) ==
              if |p| < 65536 + 1376 then VerdictAtUfs1(p)
              else
                match Parse(p[65536..])
                case Success(sb) => Success(sb)
                case Failure(e) =>
                  if e.BadMagic? then Failure(MagicInvalid(66908, p[66908..66912])) else VerdictAtUfs1(p)
  {
    hide Parse;
    var offs := [SBLOCK_UFS2, SBLOCK_UFS1];
    assert offs[1..] == [SBLOCK_UFS1];
    FirstUnfold(p, offs);
    LastVerdict(p);
    if SBLOCK_UFS2 <= |p| {
      assert p[65536..] == p[65536..|p|];
      RegionRefused(p, 65536);
    }
  }

  function VerdictAtUfs1(p: Buffer): Result<Superblock, SbError> {
    if |p| < 8192 + 1376 then Failure(NotUfs)
    else
      match Parse(p[8192..])
      case Success(sb) => Success(sb)
      case Failure(e) => if e.BadMagic? then Failure(MagicInvalid(9564, p[9564..9568])) else Failure(NotUfs)
  }

  lemma LastVerdict(p: Buffer)
    ensures ParseFirst(p, [SBLOCK_UFS1]) == VerdictAtUfs1(p)
  {
    hide Parse;
    assert [SBLOCK_UFS1][1..] == [];
    FirstUnfold(p, [SBLOCK_UFS1]);
    FirstUnfold(p, []);
    if SBLOCK_UFS1 <= |p| {
      assert p[8192..] == p[8192..|p|];
      RegionRefused(p, 8192);
    }
  }

  /** A short region is truncated; a bad magic is reported by its bytes. */
  lemma RegionRefused(p: Buffer, at: nat)
    requires at <= |p|
    ensures |p| < at + 1376 ==> Parse(p[at..]).Failure? && Parse(p[at..]).error.Truncated?
    ensures Parse(p[at..]).Failure? && Parse(p[at..]).error.BadMagic? ==>
              at + 1376 <= |p| && Parse(p[at..]).error.bytes == p[at + 1372..at + 1376]
  {
    hide ReadUint, DecodeFields;
  }

  // ── geometry ───────────────────────────────────────────────────────────────

  /** The first byte of the last group lies past the image, in unbounded arithmetic. */
  ghost predicate LastGroupBeyond(fsize: nat, fpg: nat, ncg: nat, partLen: nat)
    requires ncg > 0
  {
    var groupBytes: nat := fpg * fsize;
    (ncg - 1) * groupBytes >= partLen
  }

  method CheckImpossibleGeometry(out: seq<Anomaly>, fsize: U64, fpg: U64, ncg: U64, partLen: nat)
    returns (out': seq<Anomaly>, stop: bool)
    requires partLen < 0x8000_0000_0000_0000
    ensures stop <==> fsize > 0 && fpg > 0 && ncg > 0 && LastGroupBeyond(fsize, fpg, ncg, partLen)
    ensures out' == if stop then out + [GeometryBeyondImage("fs_ncg", ncg, partLen / SatMul(fpg, fsize) + 1)] else out
  {
    out', stop := out, false;
    if fsize == 0 || fpg == 0 || ncg == 0 {
      return;
    }
    hide SatMul;
    var cgBytes := SatMul(fpg, fsize);
    var lastBase := SatMul(SatSub(ncg, 1), cgBytes);
    LastBaseExact(fsize, fpg, ncg, partLen);
    if lastBase < partLen {
      return;
    }
    QuotientAtMost(partLen, cgBytes);
    out' := out + [GeometryBeyondImage("fs_ncg", ncg, partLen / cgBytes + 1)];
    stop := true;
  }

  lemma LastBaseExact(fsize: U64, fpg: U64, ncg: U64, partLen: nat)
    requires fsize > 0 && fpg > 0 && ncg > 0 && partLen <= U64_MAX
    ensures SatMul(ncg - 1, SatMul(fpg, fsize)) >= partLen <==> LastGroupBeyond(fsize, fpg, ncg, partLen)
  {
    var groupBytes: nat := fpg * fsize;
    if ncg > 1 && groupBytes > U64_MAX {
      MulBound(1, groupBytes, ncg - 1, groupBytes);
      MulBound(1, U64_MAX, ncg - 1, U64_MAX);
    }
  }

  /**
   * With the geometry of a parsed superblock, a reported group count is at least the reported limit, and equals it
   * only when the group size divides the image length.
   */
  lemma ReportedLimit(sb: Superblock, partLen: nat)
    requires Sane(sb) && sb.fpg > 0 && sb.ncg > 0 && LastGroupBeyond(sb.fsize, sb.fpg, sb.ncg, partLen)
    ensures SatMul(sb.fpg, sb.fsize) == sb.fpg * sb.fsize > 0
    ensures sb.ncg >= partLen / SatMul(sb.fpg, sb.fsize) + 1
    ensures sb.ncg == partLen / SatMul(sb.fpg, sb.fsize) + 1 ==> partLen % SatMul(sb.fpg, sb.fsize) == 0
  {
    MulBound(sb.fpg, sb.fsize, 0x8000_0000, 0x1_0000);
    var m: nat := SatMul(sb.fpg, sb.fsize);
    assert m == sb.fpg * sb.fsize;
    CountAgainstLimit(m, sb.ncg, partLen);
  }

  lemma CountAgainstLimit(m: nat, ncg: nat, partLen: nat)
    requires m > 0 && ncg > 0 && (ncg - 1) * m >= partLen
    ensures ncg >= partLen / m + 1
    ensures ncg == partLen / m + 1 ==> partLen % m == 0
  {
    var q, r := DivMod(partLen, m);
    if ncg - 1 < q {
      SlotEnd(ncg - 1, q, m);
    }
  }

  /** When the guard passes, no fragment offset inside any group saturates. */
  lemma OffsetsStayExact(sb: Superblock, partLen: nat, cg: nat, frag: nat)
    requires Sane(sb) && sb.fpg > 0 && cg < sb.ncg && frag < 0x8000_0000 && partLen < 0x8000_0000_0000_0000
    requires !LastGroupBeyond(sb.fsize, sb.fpg, sb.ncg, partLen)
    ensures GroupOffset(sb, cg, frag) < U64_MAX
    ensures cg <= U64_MAX && GroupByte(sb, cg, frag) == GroupOffset(sb, cg, frag)
  {
    hide GroupByte;
    GroupByteExact(sb, cg, frag);
    var groupBytes: nat := sb.fpg * sb.fsize;
    MulBound(cg, groupBytes, sb.ncg - 1, groupBytes);
    MulBound(frag, sb.fsize, 0x8000_0000, 0x1_0000);
    OffsetSplits(sb, cg, frag);
  }

  lemma OffsetSplits(sb: Superblock, cg: nat, frag: nat)
    requires sb.fpg > 0 && sb.fsize > 0
    ensures GroupOffset(sb, cg, frag) == cg * (sb.fpg * sb.fsize) + frag * sb.fsize
  {
    var frags: nat := cg * sb.fpg;
    assert (frags + frag) * sb.fsize == frags * sb.fsize + frag * sb.fsize;
    assert frags * sb.fsize == cg * (sb.fpg * sb.fsize);
  }

  // ── backup superblocks ─────────────────────────────────────────────────────

  /** The compared fields: name, primary value, backup value. */
  function Comparisons(primary: Superblock, backup: Superblock): seq<(string, U64, U64)> {
    [("fs_ipg", AsU64(primary.ipg), AsU64(backup.ipg)),
     ("fs_fpg", AsU64(primary.fpg), AsU64(backup.fpg)),
     ("fs_bsize", AsU64(primary.bsize), AsU64(backup.bsize)),
     ("fs_ncg", primary.ncg, backup.ncg)]
  }

  /** One finding per comparison that fails. */
  function Divergences(cs: seq<(string, U64, U64)>, cg: U64, at: U64): seq<Anomaly> {
    if cs == [] then []
    else
      var c := cs[|cs| - 1];
      Divergences(cs[..|cs| - 1], cg, at)
      + (if c.1 != c.2 then [BackupSuperblockDivergence(cg, c.0, c.1, c.2, at)] else [])
  }

  /** The findings about a backup superblock at `at`: none unless one is present there and parses. */
  function BackupFindings(p: Buffer, primary: Superblock, cg: U64, at: nat): seq<Anomaly> {
    if at > |p| then []
    else
      match Parse(p[at..])
      case Failure(_) => []
      case Success(backup) => Divergences(Comparisons(primary, backup), cg, at)
  }

  method CheckBackupSb(out: seq<Anomaly>, p: Buffer, primary: Superblock, cg: U64, offset: U64)
    returns (out': seq<Anomaly>)
    ensures out' == out + BackupFindings(p, primary, cg, offset)
  {
    hide Parse;
    out' := out;
    var slice := Get(p, offset, |p|);
    if slice.None? {
      return;
    }
    assert slice.value == p[offset..];
    var parsed := Parse(slice.value);
    if parsed.Failure? {
      return;
    }
    var checks := Comparisons(primary, parsed.value);
    assert checks[..0] == [];
    for i := 0 to |checks|
      invariant out' == out + Divergences(checks[..i], cg, offset)
    {
      assert checks[..i + 1][..i] == checks[..i];
      var (field, mine, theirs) := checks[i];
      if mine != theirs {
        out' := out' + [BackupSuperblockDivergence(cg, field, mine, theirs, offset)];
      }
    }
    assert checks[..|checks|] == checks;
  }

  // ── group headers ──────────────────────────────────────────────────────────

  /** The finding about a group header at `at`: present, and its magic wrong in both byte orders. */
  function CgMagicFindings(p: Buffer, cg: U64, at: nat): seq<Anomaly> {
    if at + CG_MAGIC_OFF + 4 <= |p|
       && ReadU32(Little, p, at + CG_MAGIC_OFF) != CG_MAGIC && ReadU32(Big, p, at + CG_MAGIC_OFF) != CG_MAGIC
    then [CgMagicInvalid(cg, ReadU32(Little, p, at + CG_MAGIC_OFF), at)]
    else []
  }

  method CheckCgMagic(out: seq<Anomaly>, p: Buffer, cg: U64, offset: U64) returns (out': seq<Anomaly>)
    ensures out' == out + CgMagicFindings(p, cg, offset)
  {
    hide ReadUint;
    out' := out;
    var slice := Get(p, offset, |p|);
    if slice.None? {
      return;
    }
    if |slice.value| < CG_MAGIC_OFF + 4 {
      return;
    }
    ReadInside(Little, p, offset, |p|, CG_MAGIC_OFF, 4);
    ReadInside(Big, p, offset, |p|, CG_MAGIC_OFF, 4);
    var le := ReadU32(Little, slice.value, CG_MAGIC_OFF);
    var be := ReadU32(Big, slice.value, CG_MAGIC_OFF);
    if le != CG_MAGIC && be != CG_MAGIC {
      out' := out' + [CgMagicInvalid(cg, le, offset)];
    }
  }

  // ── all groups ─────────────────────────────────────────────────────────────

  function Natural(x: I32): U64 {
    if x >= 0 then x else 0
  }

  /** The findings about group `cg`, at its exact offsets: backup first, then header. */
  function GroupFindings(p: Buffer, sb: Superblock): nat -> seq<Anomaly>
    requires sb.fpg > 0 && sb.fsize > 0
  {
    (cg: nat) => if cg > U64_MAX then [] else BackupPart(p, sb, cg) + HeaderPart(p, sb, cg)
  }

  function BackupPart(p: Buffer, sb: Superblock, cg: U64): seq<Anomaly>
    requires sb.fpg > 0 && sb.fsize > 0
  {
    if cg >= 1 && sb.sblkno > 0 then BackupFindings(p, sb, cg, GroupOffset(sb, cg, sb.sblkno)) else []
  }

  function HeaderPart(p: Buffer, sb: Superblock, cg: U64): seq<Anomaly>
    requires sb.fpg > 0 && sb.fsize > 0
  {
    if sb.cblkno > 0 then CgMagicFindings(p, cg, GroupOffset(sb, cg, sb.cblkno)) else []
  }

  function AllGroupFindings(p: Buffer, sb: Superblock): seq<Anomaly> {
    if sb.fpg > 0 && sb.fsize > 0 then Gather(GroupFindings(p, sb), sb.ncg) else []
  }

  method CheckAllCgs(out: seq<Anomaly>, p: Buffer, sb: Superblock) returns (out': seq<Anomaly>)
    ensures out' == out + AllGroupFindings(p, sb)
  {
    hide Gather, GroupFindings, BackupPart, HeaderPart, BackupFindings, CgMagicFindings, SatMul, SatAdd;
    out' := out;
    var fsize, fpg := Natural(sb.fsize), Natural(sb.fpg);
    var sblkno, cblkno := Natural(sb.sblkno), Natural(sb.cblkno);
    if fsize == 0 || fpg == 0 {
      return;
    }
    ghost var f := GroupFindings(p, sb);
    GatherNone(f);
    for cg := 0 to sb.ncg
      invariant out' == out + Gather(f, cg)
    {
      GatherStep(f, cg);
      PartsOfGroup(p, sb, cg);
      var cgBaseFrag := SatMul(cg, fpg);
      ghost var before := out';
      if cg >= 1 && sblkno > 0 {
        var bsbOff := SatMul(SatAdd(cgBaseFrag, sblkno), fsize);
        out' := CheckBackupSb(out', p, sb, cg, bsbOff);
      }
      assert out' == before + BackupPart(p, sb, cg);
      if cblkno > 0 {
        var cgOff := SatMul(SatAdd(cgBaseFrag, cblkno), fsize);
        out' := CheckCgMagic(out', p, cg, cgOff);
      }
      assert out' == before + f(cg);
    }
  }

  /** What one turn finds, at the offsets as the code computes them. */
  lemma PartsOfGroup(p: Buffer, sb: Superblock, cg: U64)
    requires sb.fpg > 0 && sb.fsize > 0
    ensures GroupFindings(p, sb)(cg) == BackupPart(p, sb, cg) + HeaderPart(p, sb, cg)
    ensures BackupPart(p, sb, cg) ==
              if cg >= 1 && sb.sblkno > 0 then BackupFindings(p, sb, cg, GroupByte(sb, cg, sb.sblkno)) else []
    ensures HeaderPart(p, sb, cg) ==
              if sb.cblkno > 0 then CgMagicFindings(p, cg, GroupByte(sb, cg, sb.cblkno)) else []
  {
    hide BackupFindings, CgMagicFindings, GroupOffset, GroupByte;
    if sb.sblkno > 0 {
      GroupByteExact(sb, cg, sb.sblkno);
      BackupPastEnd(p, sb, cg, GroupOffset(sb, cg, sb.sblkno));
    }
    if sb.cblkno > 0 {
      GroupByteExact(sb, cg, sb.cblkno);
      HeaderPastEnd(p, cg, GroupOffset(sb, cg, sb.cblkno));
    }
  }

  /** A saturated offset finds what the exact one would: nothing. */
  lemma BackupPastEnd(p: Buffer, primary: Superblock, cg: U64, at: nat)
    ensures BackupFindings(p, primary, cg, Clamp(at)) == BackupFindings(p, primary, cg, at)
  {
  }

  lemma HeaderPastEnd(p: Buffer, cg: U64, at: nat)
    ensures CgMagicFindings(p, cg, Clamp(at)) == CgMagicFindings(p, cg, at)
  {
  }

  // ── orphans ────────────────────────────────────────────────────────────────

  /** Marked in use, found by no walk from the root, readable, and still linked. */
  predicate IsOrphan(p: Buffer, sb: Superblock, reachable: seq<U64>, ino: U64) {
    && UFS_ROOTINO < ino < InodeCount(sb)
    && InodeUsed(p, sb, ino) == Some(true)
    && ino !in reachable
    && ReadInode(p, sb, ino).Success?
    && ReadInode(p, sb, ino).value.nlink > 0
  }

  function OrphanAt(p: Buffer, sb: Superblock, reachable: seq<U64>): nat -> seq<Anomaly> {
    (ino: nat) =>
      if ino <= U64_MAX && IsOrphan(p, sb, reachable, ino)
      then [OrphanedInode(ino, ReadInode(p, sb, ino).value.nlink)]
      else []
  }

  /** Every orphan of the image, by ascending inode number. */
  function Orphans(p: Buffer, sb: Superblock): seq<Anomaly> {
    Gather(OrphanAt(p, sb, Reach(ListingGraph(p, sb)).reachable), InodeCount(sb))
  }

  method CheckOrphanedInodes(out: seq<Anomaly>, p: Buffer, sb: Superblock) returns (out': seq<Anomaly>)
    ensures out' == out + Orphans(p, sb)
  {
    hide Gather, Reach, ReadInode, InodeUsed, CgInodeBitmap, InodeCount, AtGroup;
    var reachable := ReachableInodes(p, sb);
    ghost var f := OrphanAt(p, sb, reachable);
    out' := out;
    GatherNone(f);
    if sb.ipg <= 0 {
      NoInodes(sb);
      return;
    }
    ghost var base: nat := 0;
    FirstGroup(sb);
    for cg := 0 to sb.ncg
      invariant out' == out + Gather(f, base) && AtGroup(sb, cg, base)
    {
      var used := CgInodeBitmap(p, sb, cg);
      ghost var next := base + sb.ipg;
      if used.None? {
        forall ino: nat | base <= ino < next
          ensures f(ino) == []
        {
          GroupInode(p, sb, cg, base, ino - base);
        }
        GatherNoMore(f, base, next);
      } else {
        out' := OrphansOfGroup(out', p, sb, reachable, cg, used.value, out, base);
      }
      NextGroup(sb, cg, base);
      base := next;
    }
    LastGroup(sb, base);
  }

  lemma NoInodes(sb: Superblock)
    requires sb.ipg <= 0
    ensures InodeCount(sb) == 0
  {
  }

  /** The inner loop: the slots of one group whose bitmap is at hand. */
  method OrphansOfGroup(out: seq<Anomaly>, p: Buffer, sb: Superblock, reachable: seq<U64>, cg: U64, used: Buffer,
                        ghost start: seq<Anomaly>, ghost base: nat)
    returns (out': seq<Anomaly>)
    requires AtGroup(sb, cg, base) && cg < sb.ncg && CgInodeBitmap(p, sb, cg) == Some(used)
    requires out == start + Gather(OrphanAt(p, sb, reachable), base)
    ensures out' == start + Gather(OrphanAt(p, sb, reachable), base + sb.ipg)
  {
    hide Gather, ReadInode, InodeUsed, CgInodeBitmap, BitmapBit, InodeCount, SatMul;
    ghost var f := OrphanAt(p, sb, reachable);
    var total := SatMul(sb.ipg, sb.ncg);
    TotalIsCount(sb);
    out' := out;
    for within := 0 to sb.ipg
      invariant out' == start + Gather(f, base + within)
    {
      GroupInode(p, sb, cg, base, within);
      GatherStep(f, base + within);
      var ino := SatAdd(SatMul(cg, sb.ipg), within);
      assert ino == base + within;
      if ino < UFS_ROOTINO + 1 || ino >= total {
        continue;
      }
      if !BitmapBit(used, within) {
        continue;
      }
      if ino in reachable {
        continue;
      }
      var inode := ReadInode(p, sb, ino);
      if inode.Failure? {
        continue;
      }
      if inode.value.nlink == 0 {
        continue;
      }
      out' := out' + [OrphanedInode(ino, inode.value.nlink)];
    }
  }

  lemma TotalIsCount(sb: Superblock)
    requires sb.ipg > 0
    ensures SatMul(sb.ipg, sb.ncg) == InodeCount(sb)
  {
  }

  // ── the whole audit ────────────────────────────────────────────────────────

  /** The last group of a parsed superblock starts past the image. */
  ghost predicate BeyondImage(sb: Superblock, partLen: nat) {
    sb.fpg > 0 && sb.fsize > 0 && sb.ncg > 0 && LastGroupBeyond(sb.fsize, sb.fpg, sb.ncg, partLen)
  }

  /** What an audit of `p` must report, in order. */
  ghost function AuditOf(p: Buffer): seq<Anomaly> {
    match ParsePrimarySb(p)
    case Failure(MagicInvalid(at, bytes)) => [SuperblockMagicInvalid(at, bytes)]
    case Failure(NotUfs) => []
    case Success(sb) =>
      if BeyondImage(sb, |p|)
      then [GeometryBeyondImage("fs_ncg", sb.ncg, |p| / SatMul(sb.fpg, sb.fsize) + 1)]
      else AllGroupFindings(p, sb) + Orphans(p, sb)
  }

  method AuditImage(p: Buffer) returns (out: seq<Anomaly>)
    ensures out == AuditOf(p)
  {
    hide ParsePrimarySb, LastGroupBeyond, AllGroupFindings, Orphans, SatMul;
    out := [];
    PrimaryIsSane(p);
    var parsed := ParsePrimarySb(p);
    match parsed {
      case Failure(MagicInvalid(at, bytes)) =>
        out := out + [SuperblockMagicInvalid(at, bytes)];
      case Failure(NotUfs) =>
      case Success(sb) =>
        var stop;
        out, stop := CheckImpossibleGeometry(out, Natural(sb.fsize), Natural(sb.fpg), sb.ncg, |p|);
        if stop {
          return;
        }
        out := CheckAllCgs(out, p, sb);
        out := CheckOrphanedInodes(out, p, sb);
    }
  }

  // ── what the findings mean ─────────────────────────────────────────────────

  lemma {:induction false} DivergenceExact(cs: seq<(string, U64, U64)>, cg: U64, at: U64, x: Anomaly)
    ensures x in Divergences(cs, cg, at) <==>
              exists c :: c in cs && c.1 != c.2 && x == BackupSuperblockDivergence(cg, c.0, c.1, c.2, at)
    decreases |cs|
  {
    if cs != [] {
      DivergenceExact(cs[..|cs| - 1], cg, at, x);
      assert cs == cs[..|cs| - 1] + [cs[|cs| - 1]];
    }
  }

  lemma {:induction false} NoDivergence(cs: seq<(string, U64, U64)>, cg: U64, at: U64)
    ensures Divergences(cs, cg, at) == [] <==> forall c | c in cs :: c.1 == c.2
    decreases |cs|
  {
    if cs != [] {
      NoDivergence(cs[..|cs| - 1], cg, at);
      assert cs == cs[..|cs| - 1] + [cs[|cs| - 1]];
    }
  }

  /** The backup at `at`, if one is present and parses, has the primary's inode, fragment, block and group counts. */
  ghost predicate BackupAgrees(p: Buffer, primary: Superblock, at: nat) {
    at <= |p| && Parse(p[at..]).Success? ==>
      var backup := Parse(p[at..]).value;
      && backup.ipg == primary.ipg && backup.fpg == primary.fpg
      && backup.bsize == primary.bsize && backup.ncg == primary.ncg
  }

  lemma BackupClean(p: Buffer, primary: Superblock, cg: U64, at: nat)
    ensures BackupFindings(p, primary, cg, at) == [] <==> BackupAgrees(p, primary, at)
  {
    hide Parse;
    if at <= |p| && Parse(p[at..]).Success? {
      var backup := Parse(p[at..]).value;
      var cs := Comparisons(primary, backup);
      NoDivergence(cs, cg, at);
      assert cs[0] in cs && cs[1] in cs && cs[2] in cs && cs[3] in cs;
    }
  }

  /** Where a finding about a group comes among them all: by group, then field by field, then the header. */
  function Rank(x: Anomaly): nat {
    match x
    case BackupSuperblockDivergence(cg, field, _, _, _) => 5 * cg + FieldRank(field)
    case CgMagicInvalid(cg, _, _) => 5 * cg + 4
    case _ => 0
  }

  function FieldRank(field: string): nat {
    if field == "fs_ipg" then 0 else if field == "fs_fpg" then 1 else if field == "fs_bsize" then 2 else 3
  }

  /** What a divergence may say: a field's name, the primary's value and the backup's, when they differ. */
  predicate Diverges(primary: Superblock, b: Superblock, f: string, x: U64, y: U64) {
    && x != y
    && (|| (f == "fs_ipg" && x == AsU64(primary.ipg) && y == AsU64(b.ipg))
        || (f == "fs_fpg" && x == AsU64(primary.fpg) && y == AsU64(b.fpg))
        || (f == "fs_bsize" && x == AsU64(primary.bsize) && y == AsU64(b.bsize))
        || (f == "fs_ncg" && x == primary.ncg && y == b.ncg))
  }

  /** One backup's findings: field by field, the primary's value and the backup's where they differ. */
  lemma BackupReports(p: Buffer, primary: Superblock, cg: U64, at: nat)
    ensures var found := BackupFindings(p, primary, cg, at);
            && (forall x | x in found :: x.BackupSuperblockDivergence? && x.cg == cg)
            && Ranked(found, Rank, 5 * cg, 5 * cg + 4)
    ensures forall f: string, x: U64, y: U64, off: U64 ::
              BackupSuperblockDivergence(cg, f, x, y, off) in BackupFindings(p, primary, cg, at) <==>
                && off == at <= |p| && Parse(p[at..]).Success? && Diverges(primary, Parse(p[at..]).value, f, x, y)
  {
    hide Parse, Diverges;
    if at <= |p| && Parse(p[at..]).Success? {
      FourComparisons(primary, Parse(p[at..]).value, cg, at);
    }
  }

  lemma FourComparisons(primary: Superblock, b: Superblock, cg: U64, at: U64)
    ensures var found := Divergences(Comparisons(primary, b), cg, at);
            && (forall x | x in found :: x.BackupSuperblockDivergence? && x.cg == cg)
            && Ranked(found, Rank, 5 * cg, 5 * cg + 4)
    ensures forall f: string, x: U64, y: U64, off: U64 ::
              BackupSuperblockDivergence(cg, f, x, y, off) in Divergences(Comparisons(primary, b), cg, at) <==>
                off == at && Diverges(primary, b, f, x, y)
  {
    hide AsU64, Divergences, One, Ranked;
    var cs := Comparisons(primary, b);
    DivergencesOf4(cs, cg, at);
    var ipg, fpg := One(cs[0], cg, at), One(cs[1], cg, at);
    var bsize, ncg := One(cs[2], cg, at), One(cs[3], cg, at);
    OneRanked(cs[0], cg, at, 0);
    OneRanked(cs[1], cg, at, 1);
    OneRanked(cs[2], cg, at, 2);
    OneRanked(cs[3], cg, at, 3);
    RankedAppend(ipg, fpg, Rank, 5 * cg, 5 * cg + 1, 5 * cg + 2);
    RankedAppend(ipg + fpg, bsize, Rank, 5 * cg, 5 * cg + 2, 5 * cg + 3);
    RankedAppend(ipg + fpg + bsize, ncg, Rank, 5 * cg, 5 * cg + 3, 5 * cg + 4);
  }

  lemma OneRanked(c: (string, U64, U64), cg: U64, at: U64, k: nat)
    requires FieldRank(c.0) == k
    ensures Ranked(One(c, cg, at), Rank, 5 * cg + k, 5 * cg + k + 1)
    ensures forall x | x in One(c, cg, at) :: x.BackupSuperblockDivergence? && x.cg == cg
    ensures forall f: string, x: U64, y: U64, off: U64 ::
              BackupSuperblockDivergence(cg, f, x, y, off) in One(c, cg, at) <==>
                off == at && c == (f, x, y) && x != y
  {
    hide FieldRank;
  }

  /** The findings of four comparisons, spelled out. */
  lemma DivergencesOf4(cs: seq<(string, U64, U64)>, cg: U64, at: U64)
    requires |cs| == 4
    ensures Divergences(cs, cg, at)
         == One(cs[0], cg, at) + One(cs[1], cg, at) + One(cs[2], cg, at) + One(cs[3], cg, at)
  {
    hide Divergences;
    DivergencesStep(cs, cg, at, 4);
    DivergencesStep(cs, cg, at, 3);
    DivergencesStep(cs, cg, at, 2);
    DivergencesStep(cs, cg, at, 1);
    assert cs[..4] == cs;
    NoComparisons(cg, at);
    assert cs[..0] == [];
  }

  function One(c: (string, U64, U64), cg: U64, at: U64): seq<Anomaly> {
    if c.1 != c.2 then [BackupSuperblockDivergence(cg, c.0, c.1, c.2, at)] else []
  }

  lemma DivergencesStep(cs: seq<(string, U64, U64)>, cg: U64, at: U64, n: nat)
    requires 0 < n <= |cs|
    ensures Divergences(cs[..n], cg, at) == Divergences(cs[..n - 1], cg, at) + One(cs[n - 1], cg, at)
  {
    assert cs[..n][..n - 1] == cs[..n - 1];
  }

  lemma NoComparisons(cg: U64, at: U64)
    ensures Divergences([], cg, at) == []
  {
  }

  /** One header's finding: its little-endian reading, when neither order gives the magic. */
  lemma HeaderReports(p: Buffer, cg: U64, at: nat)
    ensures CgMagicFindings(p, cg, at) ==
              if at + 8 <= |p|
                 && Decode(Little, p[at + 4..at + 8]) != 0x0009_0255 && Decode(Big, p[at + 4..at + 8]) != 0x0009_0255
              then [CgMagicInvalid(cg, Decode(Little, p[at + 4..at + 8]), at)]
              else []
  {
    hide Decode;
  }

  /** The backup of group `cg` is present at `off`, parses, and differs from the primary as `f`, `x` and `y` say. */
  ghost predicate BackupDiffers(p: Buffer, sb: Superblock, cg: U64, f: string, x: U64, y: U64, off: U64) {
    && 1 <= cg && sb.sblkno > 0
    && off == (cg * sb.fpg + sb.sblkno) * sb.fsize <= |p|
    && Parse(p[off..]).Success? && Diverges(sb, Parse(p[off..]).value, f, x, y)
  }

  /** The header of group `cg` is at `off`, with the magic in neither order; its little-endian reading is `found`. */
  ghost predicate HeaderDiffers(p: Buffer, sb: Superblock, cg: U64, found: U32, off: U64) {
    && sb.cblkno > 0
    && off == (cg * sb.fpg + sb.cblkno) * sb.fsize && off + 8 <= |p|
    && Decode(Little, p[off + 4..off + 8]) == found != 0x0009_0255 && Decode(Big, p[off + 4..off + 8]) != 0x0009_0255
  }

  /** One group's findings: those of its backup, then that of its header. */
  lemma GroupReports(p: Buffer, sb: Superblock, k: U64)
    requires sb.fpg > 0 && sb.fsize > 0
    ensures Ranked(GroupFindings(p, sb)(k), Rank, 5 * k, 5 * k + 5)
    ensures forall x | x in GroupFindings(p, sb)(k) :: x.BackupSuperblockDivergence? || x.CgMagicInvalid?
    ensures forall cg: U64, f: string, x: U64, y: U64, off: U64 ::
              BackupSuperblockDivergence(cg, f, x, y, off) in GroupFindings(p, sb)(k) <==>
                cg == k && BackupDiffers(p, sb, k, f, x, y, off)
    ensures forall cg: U64, found: U32, off: U64 ::
              CgMagicInvalid(cg, found, off) in GroupFindings(p, sb)(k) <==>
                cg == k && HeaderDiffers(p, sb, k, found, off)
  {
    hide Parse, Diverges, Decode, BackupFindings, CgMagicFindings, Rank, Ranked;
    BackupPartReports(p, sb, k);
    HeaderPartReports(p, sb, k);
    RankedAppend(BackupPart(p, sb, k), HeaderPart(p, sb, k), Rank, 5 * k, 5 * k + 4, 5 * k + 5);
  }

  lemma BackupPartReports(p: Buffer, sb: Superblock, k: U64)
    requires sb.fpg > 0 && sb.fsize > 0
    ensures Ranked(BackupPart(p, sb, k), Rank, 5 * k, 5 * k + 4)
    ensures forall x | x in BackupPart(p, sb, k) :: x.BackupSuperblockDivergence? && x.cg == k
    ensures forall f: string, x: U64, y: U64, off: U64 ::
              BackupSuperblockDivergence(k, f, x, y, off) in BackupPart(p, sb, k) <==>
                BackupDiffers(p, sb, k, f, x, y, off)
  {
    hide Parse, Diverges, BackupFindings;
    if k >= 1 && sb.sblkno > 0 {
      BackupReports(p, sb, k, GroupOffset(sb, k, sb.sblkno));
    }
  }

  lemma HeaderPartReports(p: Buffer, sb: Superblock, k: U64)
    requires sb.fpg > 0 && sb.fsize > 0
    ensures Ranked(HeaderPart(p, sb, k), Rank, 5 * k + 4, 5 * k + 5)
    ensures forall x | x in HeaderPart(p, sb, k) :: x.CgMagicInvalid? && x.cg == k
    ensures forall found: U32, off: U64 ::
              CgMagicInvalid(k, found, off) in HeaderPart(p, sb, k) <==> HeaderDiffers(p, sb, k, found, off)
  {
    hide Decode, CgMagicFindings;
    if sb.cblkno > 0 {
      HeaderReports(p, k, GroupOffset(sb, k, sb.cblkno));
    }
  }

  /** The header at `at`, if present, has the group magic in one of the two orders. */
  ghost predicate HeaderReads(p: Buffer, at: nat) {
    at + CG_MAGIC_OFF + 4 <= |p| ==>
      ReadU32(Little, p, at + CG_MAGIC_OFF) == CG_MAGIC || ReadU32(Big, p, at + CG_MAGIC_OFF) == CG_MAGIC
  }

  ghost predicate GroupClean(p: Buffer, sb: Superblock, cg: nat)
    requires sb.fpg > 0 && sb.fsize > 0
  {
    && (cg >= 1 && sb.sblkno > 0 ==> BackupAgrees(p, sb, GroupOffset(sb, cg, sb.sblkno)))
    && (sb.cblkno > 0 ==> HeaderReads(p, GroupOffset(sb, cg, sb.cblkno)))
  }

  lemma GroupFindingsClean(p: Buffer, sb: Superblock, cg: nat)
    requires sb.fpg > 0 && sb.fsize > 0 && cg <= U64_MAX
    ensures GroupFindings(p, sb)(cg) == [] <==> GroupClean(p, sb, cg)
  {
    hide BackupFindings, BackupAgrees, GroupOffset, ReadU32;
    if sb.sblkno > 0 {
      BackupClean(p, sb, cg, GroupOffset(sb, cg, sb.sblkno));
    }
  }

  /** The sweep reports exactly the orphans, each with its link count, by strictly ascending inode number. */
  lemma OrphansExact(p: Buffer, sb: Superblock)
    ensures var found := Orphans(p, sb);
            var reachable := Reach(ListingGraph(p, sb)).reachable;
            && (forall x | x in found :: x.OrphanedInode?)
            && (forall i, j | 0 <= i < j < |found| && found[i].OrphanedInode? && found[j].OrphanedInode? ::
                  found[i].inode < found[j].inode)
            && (forall ino: U64, nlink: U16 :: OrphanedInode(ino, nlink) in found <==>
                  && 3 <= ino < InodeCount(sb) && InodeUsed(p, sb, ino) == Some(true) && ino !in reachable
                  && ReadInode(p, sb, ino).Success? && ReadInode(p, sb, ino).value.nlink == nlink > 0)
  {
    hide Gather, Reach, ReadInode, InodeUsed, InodeCount;
    var reachable := Reach(ListingGraph(p, sb)).reachable;
    var f := OrphanAt(p, sb, reachable);
    var n := InodeCount(sb);
    var tag := (x: Anomaly) => if x.OrphanedInode? then x.inode else 0;
    GatherAscending(f, n, tag);
    forall x
      ensures x in Gather(f, n) <==> exists k: nat :: k < n && x in f(k)
    {
      GatherMember(f, n, x);
    }
    forall ino: U64, nlink: U16
      ensures OrphanedInode(ino, nlink) in Gather(f, n) <==>
                && 3 <= ino < InodeCount(sb) && InodeUsed(p, sb, ino) == Some(true) && ino !in reachable
                && ReadInode(p, sb, ino).Success? && ReadInode(p, sb, ino).value.nlink == nlink > 0
    {
      if IsOrphan(p, sb, reachable, ino) {
        assert OrphanedInode(ino, ReadInode(p, sb, ino).value.nlink) in f(ino);
      }
    }
  }

  /** In use, readable and linked, but named by no listing of a directory reached from the root. */
  ghost predicate IsUnnamed(p: Buffer, sb: Superblock, ino: U64) {
    IsLinked(p, sb, ino) && !Named(ListingGraph(p, sb), ino)
  }

  ghost predicate IsLinked(p: Buffer, sb: Superblock, ino: U64) {
    && UFS_ROOTINO < ino < InodeCount(sb)
    && InodeUsed(p, sb, ino) == Some(true)
    && ReadInode(p, sb, ino).Success? && ReadInode(p, sb, ino).value.nlink > 0
  }

  /** No inode that the listings leave unnamed is missed, whatever the directories look like. */
  lemma NoOrphanIsMissed(p: Buffer, sb: Superblock, ino: U64)
    requires IsUnnamed(p, sb, ino)
    ensures OrphanedInode(ino, ReadInode(p, sb, ino).value.nlink) in Orphans(p, sb)
  {
    hide Orphans, Reach, ReadInode, InodeUsed, InodeCount, ListingGraph, InClosure, Names;
    OrphansExact(p, sb);
    ReachOnAnyGraph(ListingGraph(p, sb));
  }

  /**
   * When the closure fits the budget and directories come first, the sweep reports exactly the inodes that the listings
   * leave unnamed. A listing covers direct blocks only; `Contents.OrphansAreUnreferenced` is about whole directories.
   */
  lemma OrphansAreUnnamed(p: Buffer, sb: Superblock, all: seq<U64>)
    requires |all| <= BUDGET && forall d | InClosure(ListingGraph(p, sb), d) :: d in all
    requires DirectoriesComeFirst(ListingGraph(p, sb))
    ensures forall ino: U64, nlink: U16 :: OrphanedInode(ino, nlink) in Orphans(p, sb) <==>
              IsUnnamed(p, sb, ino) && ReadInode(p, sb, ino).value.nlink == nlink
  {
    hide Orphans, Reach, ReadInode, InodeUsed, InodeCount, ListingGraph, InClosure, Named, DirectoriesComeFirst;
    OrphansExact(p, sb);
    CompleteWithinBudget(ListingGraph(p, sb), all);
  }

  lemma GroupsReport(p: Buffer, sb: Superblock)
    requires sb.ncg <= U64_MAX
    ensures Ranked(AllGroupFindings(p, sb), Rank, 0, 5 * sb.ncg)
    ensures forall x | x in AllGroupFindings(p, sb) :: x.BackupSuperblockDivergence? || x.CgMagicInvalid?
    ensures forall cg: U64, f: string, x: U64, y: U64, off: U64 ::
              BackupSuperblockDivergence(cg, f, x, y, off) in AllGroupFindings(p, sb) <==>
                sb.fpg > 0 && sb.fsize > 0 && cg < sb.ncg && BackupDiffers(p, sb, cg, f, x, y, off)
    ensures forall cg: U64, found: U32, off: U64 ::
              CgMagicInvalid(cg, found, off) in AllGroupFindings(p, sb) <==>
                sb.fpg > 0 && sb.fsize > 0 && cg < sb.ncg && HeaderDiffers(p, sb, cg, found, off)
  {
    hide Gather, GroupFindings, BackupDiffers, HeaderDiffers, Rank;
    if sb.fpg > 0 && sb.fsize > 0 {
      var f := GroupFindings(p, sb);
      forall k: nat | k < sb.ncg
        ensures Ranked(f(k), Rank, 5 * k, 5 * k + 5)
      {
        GroupReports(p, sb, k);
      }
      GatherRanked(f, sb.ncg, Rank, 5);
      forall x
        ensures x in Gather(f, sb.ncg) <==> exists k: nat :: k < sb.ncg && x in f(k)
      {
        GatherMember(f, sb.ncg, x);
      }
      forall k: U64
        ensures forall x | x in f(k) :: x.BackupSuperblockDivergence? || x.CgMagicInvalid?
        ensures forall cg: U64, g: string, x: U64, y: U64, off: U64 ::
                  BackupSuperblockDivergence(cg, g, x, y, off) in f(k) <==>
                    cg == k && BackupDiffers(p, sb, k, g, x, y, off)
        ensures forall cg: U64, found: U32, off: U64 ::
                  CgMagicInvalid(cg, found, off) in f(k) <==> cg == k && HeaderDiffers(p, sb, k, found, off)
      {
        GroupReports(p, sb, k);
      }
      forall cg: U64, g: string, x: U64, y: U64, off: U64
        ensures BackupSuperblockDivergence(cg, g, x, y, off) in Gather(f, sb.ncg) <==>
                  cg < sb.ncg && BackupSuperblockDivergence(cg, g, x, y, off) in f(cg)
      {
      }
      forall cg: U64, found: U32, off: U64
        ensures CgMagicInvalid(cg, found, off) in Gather(f, sb.ncg) <==>
                  cg < sb.ncg && CgMagicInvalid(cg, found, off) in f(cg)
      {
      }
    }
  }

  /**
   * The audit of a partition whose last group starts inside the image, finding by finding. Findings about groups come
   * first: by group, in each the fields of its backup in the order inodes, fragments, block size, groups, and then its
   * header. Orphans follow by strictly ascending number. There is nothing else.
   */
  lemma AuditExact(p: Buffer, sb: Superblock)
    requires ParsePrimarySb(p) == Success(sb)
    requires sb.fpg <= 0 || sb.ncg == 0 || (sb.ncg - 1) * (sb.fpg * sb.fsize) < |p|
    ensures forall cg: U64, f: string, x: U64, y: U64, off: U64 ::
              BackupSuperblockDivergence(cg, f, x, y, off) in AuditOf(p) <==>
                sb.fpg > 0 && cg < sb.ncg && BackupDiffers(p, sb, cg, f, x, y, off)
    ensures forall cg: U64, found: U32, off: U64 ::
              CgMagicInvalid(cg, found, off) in AuditOf(p) <==>
                sb.fpg > 0 && cg < sb.ncg && HeaderDiffers(p, sb, cg, found, off)
    ensures forall ino: U64, nlink: U16 :: OrphanedInode(ino, nlink) in AuditOf(p) <==>
              && 3 <= ino < InodeCount(sb) && InodeUsed(p, sb, ino) == Some(true)
              && ino !in Reach(ListingGraph(p, sb)).reachable
              && ReadInode(p, sb, ino).Success? && ReadInode(p, sb, ino).value.nlink == nlink > 0
    ensures forall x | x in AuditOf(p) :: x.BackupSuperblockDivergence? || x.CgMagicInvalid? || x.OrphanedInode?
    ensures forall i, j | 0 <= i < j < |AuditOf(p)| :: Follows(AuditOf(p)[i], AuditOf(p)[j])
  {
    hide ParsePrimarySb, LastGroupBeyond, AllGroupFindings, Orphans, Reach, ReadInode, InodeUsed, InodeCount,
         BackupDiffers, HeaderDiffers, Rank;
    PrimaryIsSane(p);
    NotBeyond(sb, |p|);
    GroupsReport(p, sb);
    OrphansExact(p, sb);
    var groups, orphans := AllGroupFindings(p, sb), Orphans(p, sb);
    assert AuditOf(p) == groups + orphans;
    OrphansLast(groups, orphans, 5 * sb.ncg);
  }

  /** `x` may be reported before `y`. */
  ghost predicate Follows(x: Anomaly, y: Anomaly) {
    if x.OrphanedInode? then y.OrphanedInode? && x.inode < y.inode else y.OrphanedInode? || Rank(x) < Rank(y)
  }

  lemma OrphansLast(groups: seq<Anomaly>, orphans: seq<Anomaly>, hi: nat)
    requires Ranked(groups, Rank, 0, hi) && forall x | x in groups :: !x.OrphanedInode?
    requires forall x | x in orphans :: x.OrphanedInode?
    requires forall i, j | 0 <= i < j < |orphans| && orphans[i].OrphanedInode? && orphans[j].OrphanedInode? ::
               orphans[i].inode < orphans[j].inode
    ensures forall i, j | 0 <= i < j < |groups + orphans| :: Follows((groups + orphans)[i], (groups + orphans)[j])
  {
    hide Rank;
    var all := groups + orphans;
    forall i, j | 0 <= i < j < |all|
      ensures Follows(all[i], all[j])
    {
      if i < |groups| {
        assert groups[i] in groups;
      } else {
        assert orphans[i - |groups|] in orphans;
      }
      if j >= |groups| {
        assert orphans[j - |groups|] in orphans;
      }
    }
  }

  lemma NotBeyond(sb: Superblock, partLen: nat)
    requires Sane(sb)
    requires sb.fpg <= 0 || sb.ncg == 0 || (sb.ncg - 1) * (sb.fpg * sb.fsize) < partLen
    ensures !BeyondImage(sb, partLen)
  {
  }

  /** An audit that stops early: nothing, or one finding about the magic. */
  lemma AuditStops(p: Buffer)
    ensures ParsePrimarySb(p) == Failure(NotUfs) ==> AuditOf(p) == []
    ensures forall at: U64, bytes :: ParsePrimarySb(p) == Failure(MagicInvalid(at, bytes)) ==>
              AuditOf(p) == [SuperblockMagicInvalid(at, bytes)]
  {
    hide ParsePrimarySb, AllGroupFindings, Orphans, SatMul, LastGroupBeyond;
  }

  /** Or one finding about the group count, when the last group starts past the image. */
  lemma AuditBeyond(p: Buffer, sb: Superblock, groupBytes: nat)
    requires ParsePrimarySb(p) == Success(sb) && sb.fpg > 0 && sb.ncg > 0
    requires groupBytes == sb.fpg * sb.fsize && (sb.ncg - 1) * groupBytes >= |p|
    ensures groupBytes > 0 && AuditOf(p) == [GeometryBeyondImage("fs_ncg", sb.ncg, |p| / groupBytes + 1)]
  {
    hide ParsePrimarySb, AllGroupFindings, Orphans, SatMul;
    PrimaryIsSane(p);
    ReportedLimit(sb, |p|);
  }

  /** An image whose audit is empty. */
  ghost predicate CleanImage(p: Buffer) {
    match ParsePrimarySb(p)
    case Failure(e) => e == NotUfs
    case Success(sb) =>
      && !BeyondImage(sb, |p|)
      && (sb.fpg > 0 && sb.fsize > 0 ==> forall cg: nat | cg < sb.ncg :: GroupClean(p, sb, cg))
      && (forall ino: U64 :: !IsOrphan(p, sb, Reach(ListingGraph(p, sb)).reachable, ino))
  }

  lemma NoGroupFindings(p: Buffer, sb: Superblock)
    requires sb.fpg > 0 && sb.fsize > 0
    ensures AllGroupFindings(p, sb) == [] <==> forall cg: nat | cg < sb.ncg :: GroupClean(p, sb, cg)
  {
    hide Gather, GroupFindings, GroupClean;
    var f := GroupFindings(p, sb);
    GatherEmpty(f, sb.ncg);
    forall cg: nat | cg < sb.ncg
      ensures f(cg) == [] <==> GroupClean(p, sb, cg)
    {
      GroupFindingsClean(p, sb, cg);
    }
  }

  lemma NoOrphans(p: Buffer, sb: Superblock)
    ensures Orphans(p, sb) == [] <==>
              forall ino: U64 :: !IsOrphan(p, sb, Reach(ListingGraph(p, sb)).reachable, ino)
  {
    hide Orphans, Reach, ReadInode, InodeUsed, InodeCount;
    OrphansExact(p, sb);
    var found := Orphans(p, sb);
    if found != [] {
      assert found[0] in found && found[0] == OrphanedInode(found[0].inode, found[0].nlink);
      assert IsOrphan(p, sb, Reach(ListingGraph(p, sb)).reachable, found[0].inode);
    }
    forall ino: U64 | IsOrphan(p, sb, Reach(ListingGraph(p, sb)).reachable, ino)
      ensures found != []
    {
      assert OrphanedInode(ino, ReadInode(p, sb, ino).value.nlink) in found;
    }
  }

  /** The audit of an image is empty exactly when every one of its conditions is clean. */
  lemma AuditEmptyIffClean(p: Buffer)
    ensures AuditOf(p) == [] <==> CleanImage(p)
  {
    hide ParsePrimarySb, BeyondImage, AllGroupFindings, Orphans, GroupClean, IsOrphan, Reach, SatMul;
    var parsed := ParsePrimarySb(p);
    if parsed.Success? {
      NoOrphans(p, parsed.value);
      if parsed.value.fpg > 0 && parsed.value.fsize > 0 {
        NoGroupFindings(p, parsed.value);
      } else {
        NoGroups(p, parsed.value);
      }
    }
  }

  lemma NoGroups(p: Buffer, sb: Superblock)
    requires sb.fpg <= 0 || sb.fsize <= 0
    ensures AllGroupFindings(p, sb) == []
  {
  }
}
