/** The mounted view of a file: extents and windowed reads (core/src/vfs.rs). */
module Views {
  import opened Bytes
  import opened Gathering
  import opened Superblocks
  import opened Inodes
  import opened BlockMap
  import opened Listing

  datatype UfsFs = UfsFs(image: Buffer, sb: Superblock)

  datatype Run = Run(imageOffset: U64, len: U64)

  /** The block size runs are measured with: `fs_bsize.max(0).max(1)`. */
  function RunSize(sb: Superblock): U64 {
    if sb.bsize > 0 then sb.bsize else 1
  }

  /** The run of direct block `k`: none past the end of the file or under a hole. */
  function DirectRun(sb: Superblock, inode: Inode): nat -> seq<Run> {
    (k: nat) =>
      var left := Left(inode.size, RunSize(sb), k);
      if k < UFS_NDADDR && left > 0 && inode.direct[k] != 0
      then [Run(SatMul(inode.direct[k], if sb.fsize > 0 then sb.fsize else 0), Min(left, RunSize(sb)))]
      else []
  }

  /**
   * Runs come block by block: that of direct block `k`, after those of the blocks before it, goes from its first byte
   * in the image to its end or the file's, in blocks of `fs_bsize` bytes, or of one when that is not positive. A hole
   * or a block past the end of the file has none.
   */
  lemma RunsInOrder(sb: Superblock, inode: Inode, k: nat, bsize: nat, start: nat, at: nat)
    requires sb.fsize > 0 && k < 12 && bsize == (if sb.bsize > 0 then sb.bsize else 1)
    requires start == k * bsize && at == inode.direct[k] * sb.fsize
    ensures var before, runs := Gather(DirectRun(sb, inode), k), DirectRuns(sb, inode);
            if inode.direct[k] != 0 && start < inode.size then
              && |before| < |runs| && runs[..|before|] == before
              && runs[|before|] == Run(Clamp(at), Min(inode.size - start, bsize))
            else Gather(DirectRun(sb, inode), k + 1) == before
    ensures |Gather(DirectRun(sb, inode), k)| <= k && Gather(DirectRun(sb, inode), 12) == DirectRuns(sb, inode)
  {
    hide Gather;
    var f := DirectRun(sb, inode);
    RunCount(sb, inode, k);
    GatherPrefix(f, k, 12);
    GatherRow(f, k, 12);
    GatherStep(f, k);
    assert Gather(f, k) + [] == Gather(f, k);
  }

  lemma {:induction false} RunCount(sb: Superblock, inode: Inode, n: nat)
    ensures |Gather(DirectRun(sb, inode), n)| <= n
  {
    if n > 0 {
      RunCount(sb, inode, n - 1);
    }
  }

  function DirectRuns(sb: Superblock, inode: Inode): seq<Run> {
    Gather(DirectRun(sb, inode), UFS_NDADDR)
  }

  method Extents(fs: UfsFs, ino: U64) returns (r: Result<seq<Run>, UfsError>)
    ensures r == match ReadInode(fs.image, fs.sb, ino)
                 case Failure(e) => Failure(e)
                 case Success(inode) => Success(DirectRuns(fs.sb, inode))
  {
    hide Gather, Left, ReadInode, SatMul;
    var inode :- ReadInode(fs.image, fs.sb, ino);
    var fsize: U64 := if fs.sb.fsize > 0 then fs.sb.fsize else 0;
    var bsize: U64 := RunSize(fs.sb);
    var remaining: U64 := inode.size;
    var runs: seq<Run> := [];
    ghost var f := DirectRun(fs.sb, inode);
    LeftFirst(inode.size, bsize);
    GatherNone(f);
    for i := 0 to UFS_NDADDR
      invariant runs == Gather(f, i) && remaining == Left(inode.size, bsize, i)
    {
      GatherStep(f, i);
      LeftNext(inode.size, bsize, i);
      if remaining == 0 {
        forall j: nat | i <= j < UFS_NDADDR
          ensures f(j) == []
        {
          LeftNone(inode.size, bsize, i, j);
        }
        GatherNoMore(f, i, UFS_NDADDR);
        break;
      }
      var runLen: U64 := Min(remaining, bsize);
      var addr := inode.direct[i];
      if addr != 0 {
        runs := runs + [Run(SatMul(addr, fsize), runLen)];
      }
      remaining := SatSub(remaining, bsize);
    }
    return Success(runs);
  }

  // ── runs account for the file ──────────────────────────────────────────────

  function RunBytes(runs: seq<Run>): nat {
    if runs == [] then 0 else RunBytes(runs[..|runs| - 1]) + runs[|runs| - 1].len
  }

  /** Bytes of the file that fall under zero direct pointers among the first `n`. */
  function HoleBytes(sb: Superblock, inode: Inode, n: nat): nat
    requires n <= UFS_NDADDR
  {
    if n == 0 then 0
    else HoleBytes(sb, inode, n - 1)
         + (if inode.direct[n - 1] == 0 then Min(Left(inode.size, RunSize(sb), n - 1), RunSize(sb)) else 0)
  }

  lemma RunBytesPush(runs: seq<Run>, run: Run)
    ensures RunBytes(runs + [run]) == RunBytes(runs) + run.len
  {
    assert (runs + [run])[..|runs|] == runs;
  }

  lemma {:induction false} RunsUpTo(sb: Superblock, inode: Inode, n: nat)
    requires n <= UFS_NDADDR
    ensures RunBytes(Gather(DirectRun(sb, inode), n)) + HoleBytes(sb, inode, n) + Left(inode.size, RunSize(sb), n)
              == inode.size
  {
    hide Gather, Left, SatMul, RunBytes;
    var f := DirectRun(sb, inode);
    if n == 0 {
      GatherNone(f);
      LeftFirst(inode.size, RunSize(sb));
      NoRuns();
    } else {
      RunsUpTo(sb, inode, n - 1);
      GatherStep(f, n - 1);
      LeftNext(inode.size, RunSize(sb), n - 1);
      var before := Gather(f, n - 1);
      if f(n - 1) == [] {
        assert before + f(n - 1) == before;
      } else {
        RunBytesPush(before, f(n - 1)[0]);
      }
    }
  }

  lemma NoRuns()
    ensures RunBytes([]) == 0
  {
  }

  /** Runs and holes together cover exactly the part of the file that direct blocks reach. */
  lemma RunsAccountForFile(sb: Superblock, inode: Inode)
    ensures RunBytes(DirectRuns(sb, inode)) + HoleBytes(sb, inode, UFS_NDADDR)
              == Min(inode.size, UFS_NDADDR * RunSize(sb))
  {
    hide Gather, RunBytes, HoleBytes;
    RunsUpTo(sb, inode, UFS_NDADDR);
  }

  /** A run that lies in the image holds exactly the bytes of the file at its block. */
  lemma RunIsContent(p: Buffer, sb: Superblock, inode: Inode, k: nat)
    requires HasBlocks(sb) && k < UFS_NDADDR
    requires DirectRun(sb, inode)(k) != []
    requires var run := DirectRun(sb, inode)(k)[0]; run.imageOffset + run.len <= |p|
    ensures var run := DirectRun(sb, inode)(k)[0];
            && k * sb.bsize + run.len <= inode.size
            && p[run.imageOffset..run.imageOffset + run.len]
                 == FileBytes(p, sb, inode)[k * sb.bsize..k * sb.bsize + run.len]
  {
    hide FileBytes, LeafAt, BlockBytes, Left;
    var run := DirectRun(sb, inode)(k)[0];
    var addr := inode.direct[k];
    LeftStarts(inode.size, sb.bsize, k);
    FileBlock(p, sb, inode, k, k * sb.bsize, run.len);
    LeafDirect(p, sb, inode, Nindir(sb), k);
    ClipPrefix(p, sb, addr, run.len);
    assert FragByte(sb, addr) == run.imageOffset;
    var block := Clip(p, FragByte(sb, addr), run.len);
    assert block + Zeros(0) == block;
  }

  // ── windowed reads ─────────────────────────────────────────────────────────

  /** `read_at`: the part of the file in `[off, off + buf.len())`, copied to the front of the buffer. */
  method ReadAt(fs: UfsFs, ino: U64, off: U64, buf: array<Byte>) returns (r: Result<nat, UfsError>)
    modifies buf
    ensures match FileAt(fs.image, fs.sb, ino)
            case Failure(e) => r == Failure(e) && buf[..] == old(buf[..])
            case Success(file) =>
              var n := if off <= |file| then Min(|file| - off, buf.Length) else 0;
              && r == Success(n)
              && (n > 0 ==> buf[..n] == file[off..off + n])
              && buf[n..] == old(buf[n..])
  {
    hide FileAt;
    var file :- ReadFile(fs.image, fs.sb, ino);
    if off > |file| {
      return Success(0);
    }
    var slice := file[off..];
    var n := Min(|slice|, buf.Length);
    forall j | 0 <= j < n {
      buf[j] := slice[j];
    }
    assert buf[..n] == file[off..off + n];
    return Success(n);
  }
}
