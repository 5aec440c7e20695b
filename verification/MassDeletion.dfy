/** Deleting any number of files and recovering them all (forensic/src/lib.rs). */
module MassDeletion {
  import opened Bytes
  import opened Superblocks
  import opened Images
  import opened Inodes
  import opened BlockMap
  import opened Groups
  import opened Audit
  import opened Carve
  import opened Frames
  import opened Deletion

  /** One `rm`: the inode, and where its directory entry is. */
  datatype Removal = Removal(ino: U64, dirent: nat)

  /** Every position that the removals write. */
  ghost function AllEdits(p: Buffer, sb: Superblock, rms: seq<Removal>): set<nat>
    requires HasGroups(sb)
  {
    if rms == [] then {}
    else AllEdits(p, sb, rms[..|rms| - 1]) + UnlinkEdits(p, sb, rms[|rms| - 1].ino, rms[|rms| - 1].dirent)
  }

  /** The group of each removed inode has a bitmap, and no removal writes a group header's fields. */
  ghost predicate Removable(p: Buffer, sb: Superblock, rms: seq<Removal>, edits: set<nat>) {
    && HasGroups(sb)
    && forall r | r in rms ::
         && HasBitmap(p, sb, Div(r.ino, sb.ipg)) && r.dirent + 4 <= |p|
         && HeaderClear(sb, edits, Div(r.ino, sb.ipg))
  }

  lemma RemovableFront(p: Buffer, sb: Superblock, rms: seq<Removal>)
    requires rms != [] && HasGroups(sb) && Removable(p, sb, rms, AllEdits(p, sb, rms))
    ensures var front := rms[..|rms| - 1]; Removable(p, sb, front, AllEdits(p, sb, front))
    ensures var last := rms[|rms| - 1];
            && HasBitmap(p, sb, Div(last.ino, sb.ipg)) && last.dirent + 4 <= |p|
            && HeaderClear(sb, AllEdits(p, sb, rms[..|rms| - 1]), Div(last.ino, sb.ipg))
            && HeaderClear(sb, AllEdits(p, sb, rms), Div(last.ino, sb.ipg))
  {
    hide HasBitmap, HeaderAt, UnlinkEdits, Div;
    var front, last := rms[..|rms| - 1], rms[|rms| - 1];
    assert last in rms && forall r | r in front :: r in rms;
  }

  /** The removals one after another. */
  ghost function UnlinkAll(p: Buffer, sb: Superblock, rms: seq<Removal>): (q: Buffer)
    requires HasGroups(sb) && Removable(p, sb, rms, AllEdits(p, sb, rms))
    ensures |q| == |p| && SameExcept(p, q, AllEdits(p, sb, rms))
    decreases |rms|
  {
    if rms == [] then p
    else
      var front, last := rms[..|rms| - 1], rms[|rms| - 1];
      RemovableFront(p, sb, rms);
      var m := UnlinkAll(p, sb, front);
      NextUnlink(p, m, sb, last, AllEdits(p, sb, front));
      Unlink(m, sb, last.ino, last.dirent)
  }

  /** After earlier removals, the next one writes the positions it would have written at first. */
  lemma NextUnlink(p: Buffer, m: Buffer, sb: Superblock, r: Removal, edits: set<nat>)
    requires HasGroups(sb) && HasBitmap(p, sb, Div(r.ino, sb.ipg)) && HeaderClear(sb, edits, Div(r.ino, sb.ipg))
    requires SameExcept(p, m, edits) && r.dirent + 4 <= |p|
    ensures |m| == |p| && HasBitmap(m, sb, Div(r.ino, sb.ipg))
    ensures UnlinkEdits(m, sb, r.ino, r.dirent) == UnlinkEdits(p, sb, r.ino, r.dirent)
    ensures BitByte(m, sb, r.ino) == BitByte(p, sb, r.ino)
    ensures SameExcept(p, Unlink(m, sb, r.ino, r.dirent), edits + UnlinkEdits(p, sb, r.ino, r.dirent))
  {
    hide HasBitmap, HeaderClear, BitmapAt, Unlink, Div, Rem;
    BitmapSame(p, m, sb, edits, Div(r.ino, sb.ipg));
    UnlinkChangesOnly(m, sb, r.ino, r.dirent);
  }

  // ── every removed inode ends up free ───────────────────────────────────────

  lemma {:induction false} ShrZero(j: nat)
    ensures Shr(0, j) == 0
  {
    if j > 0 {
      ShrZero(j - 1);
    }
  }

  /** A removal sets no bit anywhere. */
  lemma UnlinkLowers(p: Buffer, sb: Superblock, r: Removal, at: nat, j: nat)
    requires HasGroups(sb) && HasBitmap(p, sb, Div(r.ino, sb.ipg)) && r.dirent + 4 <= |p| && at < |p|
    ensures Shr(Unlink(p, sb, r.ino, r.dirent)[at], j) % 2 == 1 ==> Shr(p[at], j) % 2 == 1
  {
    hide BitByte, HasBitmap, Rem, Div, Shr, ClearBit;
    BitByteInside(p, sb, r.ino);
    ClearBitExact(p[BitByte(p, sb, r.ino)], Rem(r.ino, sb.ipg) % 8, j);
    ShrZero(j);
  }

  /** So an inode that is free stays free. */
  lemma StaysFree(p: Buffer, sb: Superblock, r: Removal, ino: U64)
    requires HasGroups(sb) && HasBitmap(p, sb, Div(r.ino, sb.ipg)) && r.dirent + 4 <= |p|
    requires HasBitmap(p, sb, Div(ino, sb.ipg))
    requires HeaderClear(sb, UnlinkEdits(p, sb, r.ino, r.dirent), Div(ino, sb.ipg))
    requires InodeUsed(p, sb, ino) == Some(false)
    ensures InodeUsed(Unlink(p, sb, r.ino, r.dirent), sb, ino) == Some(false)
  {
    hide HasBitmap, HeaderClear, BitmapAt, Unlink, UnlinkEdits, Div, Rem, Shr, CgInodeBitmap;
    var q := Unlink(p, sb, r.ino, r.dirent);
    UnlinkChangesOnly(p, sb, r.ino, r.dirent);
    BitmapSame(p, q, sb, UnlinkEdits(p, sb, r.ino, r.dirent), Div(ino, sb.ipg));
    UsedBit(p, sb, ino);
    UsedBit(q, sb, ino);
    UnlinkLowers(p, sb, r, BitByte(p, sb, ino), Rem(ino, sb.ipg) % 8);
  }

  /** An inode's used bit, read off its byte of the image. */
  lemma UsedBit(p: Buffer, sb: Superblock, ino: U64)
    requires HasGroups(sb) && HasBitmap(p, sb, Div(ino, sb.ipg))
    ensures BitByte(p, sb, ino) < |p|
    ensures InodeUsed(p, sb, ino) == Some(Shr(p[BitByte(p, sb, ino)], Rem(ino, sb.ipg) % 8) % 2 == 1)
  {
    hide HasBitmap, BitmapAt, Div, Rem, Shr, CgInodeBitmap;
    CgInodeBitmapExact(p, sb, Div(ino, sb.ipg));
    BitmapCoversGroup(p, sb, Div(ino, sb.ipg));
    BitByteInside(p, sb, ino);
    var at := BitmapAt(p, sb, Div(ino, sb.ipg));
    assert p[at..at + BitmapLen(sb)][Rem(ino, sb.ipg) / 8] == p[BitByte(p, sb, ino)];
  }

  lemma {:induction false} AllFreed(p: Buffer, sb: Superblock, rms: seq<Removal>, r: Removal)
    requires HasGroups(sb) && Removable(p, sb, rms, AllEdits(p, sb, rms)) && r in rms
    ensures InodeUsed(UnlinkAll(p, sb, rms), sb, r.ino) == Some(false)
    decreases |rms|
  {
    hide HasBitmap, HeaderClear, Unlink, UnlinkEdits, InodeUsed, Div, SameExcept;
    var front, last := rms[..|rms| - 1], rms[|rms| - 1];
    RemovableFront(p, sb, rms);
    var m, edits := UnlinkAll(p, sb, front), AllEdits(p, sb, front);
    NextUnlink(p, m, sb, last, edits);
    HeaderOfPart(sb, edits, UnlinkEdits(p, sb, last.ino, last.dirent), Div(r.ino, sb.ipg));
    if r == last {
      UnlinkFreesInode(m, sb, last.ino, last.dirent);
    } else {
      assert rms == front + [last] && r in front;
      AllFreed(p, sb, front, r);
      NextUnlink(p, m, sb, r, edits);
      StaysFree(m, sb, last, r.ino);
    }
  }

  lemma HeaderOfPart(sb: Superblock, a: set<nat>, b: set<nat>, cg: nat)
    requires HasGroups(sb) && HeaderClear(sb, a + b, cg)
    ensures HeaderClear(sb, a, cg) && HeaderClear(sb, b, cg)
  {
  }

  // ── every removed file is recovered ────────────────────────────────────────

  /** Live files whose removals together spare what recovering each of them reads. */
  ghost predicate AllRecoverable(p: Buffer, sb: Superblock, rms: seq<Removal>) {
    && HasGroups(sb)
    && forall r | r in rms ::
         && LiveFile(p, sb, r.ino) && r.dirent + 4 <= |p|
         && ResidueIntact(p, sb, r.ino, AllEdits(p, sb, rms))
  }

  lemma RecoverableIsRemovable(p: Buffer, sb: Superblock, rms: seq<Removal>)
    requires AllRecoverable(p, sb, rms)
    ensures Removable(p, sb, rms, AllEdits(p, sb, rms))
  {
    hide HasBitmap, HeaderClear, AllEdits, PrimaryClear, InodeClear, FileClear, FileAt, ReadInode, ParsePrimarySb, Div,
         InodeCount;
  }

  /**
   * Delete any number of files, then carve: when the removals together spare one another's residue, recovery returns
   * every one of them with exactly the content it had before.
   */
  lemma DeleteAllThenCarve(p: Buffer, sb: Superblock, rms: seq<Removal>, r: Removal)
    requires AllRecoverable(p, sb, rms) && r in rms
    ensures HasGroups(sb) && Removable(p, sb, rms, AllEdits(p, sb, rms))
    ensures LiveFile(p, sb, r.ino)
    ensures var inode := ReadInode(p, sb, r.ino).value;
            DeletedFile(None, r.ino, inode.size, FileAt(p, sb, r.ino).value) in RecoveredFrom(UnlinkAll(p, sb, rms))
  {
    hide ParsePrimarySb, ReadInode, HasBitmap, FileAt, FileClear, PrimaryClear, HeaderClear, InodeClear, UnlinkAll,
         AllEdits, Removable, SameExcept, InodeUsed, InodeCount, RecoveredFrom;
    RecoverableIsRemovable(p, sb, rms);
    AllFreed(p, sb, rms, r);
    FreedIsCarved(p, UnlinkAll(p, sb, rms), sb, r.ino, AllEdits(p, sb, rms));
  }
}
