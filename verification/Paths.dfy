/** Resolving a path from the root (core/src/dir.rs) and one name at a time (core/src/vfs.rs). */
module Paths {
  import opened Bytes
  import opened Superblocks
  import opened Inodes
  import opened Directory
  import opened Listing

  const SLASH: Byte := 47

  /** `str::split('/')`: always at least one, possibly empty, component. */
  function Split(path: seq<Byte>): (cs: seq<seq<Byte>>)
    ensures |cs| > 0
  {
    if path == [] then [[]]
    else
      var rest := Split(path[1..]);
      if path[0] == SLASH then [[]] + rest else [[path[0]] + rest[0]] + rest[1..]
  }

  function NonEmpty(cs: seq<seq<Byte>>): seq<seq<Byte>> {
    if cs == [] then []
    else NonEmpty(cs[..|cs| - 1]) + (if cs[|cs| - 1] == [] then [] else [cs[|cs| - 1]])
  }

  /** The names a path goes through. */
  function Components(path: seq<Byte>): seq<seq<Byte>> {
    NonEmpty(Split(path))
  }

  // ── lookup ─────────────────────────────────────────────────────────────────

  /** The first live slot of that name. */
  function FindLive(es: seq<DirEntry>, name: seq<Byte>): (hit: Option<DirEntry>)
    ensures hit.Some? <==> exists x :: x in es && !x.deleted && x.name == name
    ensures hit.Some? ==>
              exists i ::
                && 0 <= i < |es| && es[i] == hit.value && !es[i].deleted && es[i].name == name
                && forall j | 0 <= j < i :: es[j].deleted || es[j].name != name
  {
    if es == [] then None
    else if !es[0].deleted && es[0].name == name then Some(es[0])
    else
      var hit := FindLive(es[1..], name);
      FoundLater(es, name, hit);
      hit
  }

  /** What is found past an entry that does not match is found first. */
  lemma FoundLater(es: seq<DirEntry>, name: seq<Byte>, hit: Option<DirEntry>)
    requires es != [] && (es[0].deleted || es[0].name != name)
    requires hit.Some? <==> exists x :: x in es[1..] && !x.deleted && x.name == name
    requires hit.Some? ==>
               exists i ::
                 && 0 <= i < |es[1..]| && es[1..][i] == hit.value && !es[1..][i].deleted && es[1..][i].name == name
                 && forall j | 0 <= j < i :: es[1..][j].deleted || es[1..][j].name != name
    ensures hit.Some? <==> exists x :: x in es && !x.deleted && x.name == name
    ensures hit.Some? ==>
              exists i ::
                && 0 <= i < |es| && es[i] == hit.value && !es[i].deleted && es[i].name == name
                && forall j | 0 <= j < i :: es[j].deleted || es[j].name != name
  {
    var rest := es[1..];
    assert es == [es[0]] + rest;
    if hit.Some? {
      var i :| 0 <= i < |rest| && rest[i] == hit.value && !rest[i].deleted && rest[i].name == name
               && forall j | 0 <= j < i :: rest[j].deleted || rest[j].name != name;
      assert es[i + 1] == hit.value;
      forall j | 0 <= j < i + 1
        ensures es[j].deleted || es[j].name != name
      {
        if j > 0 {
          assert es[j] == rest[j - 1];
        }
      }
    }
  }

  /** `UfsFs::lookup`: the inode number a name leads to in one directory. */
  function Lookup(p: Buffer, sb: Superblock, dir: U64, name: seq<Byte>): Result<Option<U64>, UfsError> {
    match ListDir(p, sb, dir)
    case Failure(e) => Failure(e)
    case Success(slots) =>
      match FindLive(slots, name)
      case None => Success(None)
      case Some(hit) => Success(Some(hit.ino))
  }

  lemma {:induction false} FindInLive(es: seq<DirEntry>, name: seq<Byte>)
    ensures FindLive(Live(es), name) == FindLive(es, name)
    decreases |es|
  {
    hide Live;
    if es == [] {
      LiveNone();
    } else {
      var x, rest := es[0], es[1..];
      assert es == [x] + rest;
      LiveAppend([x], rest);
      LiveOne(x);
      FindInLive(rest, name);
      if x.deleted {
        assert Live(es) == Live(rest);
      } else {
        assert Live(es)[1..] == Live(rest);
      }
    }
  }

  // ── resolving ──────────────────────────────────────────────────────────────

  datatype Place = Place(ino: U64, inode: Inode)

  type Resolution = Result<Option<Place>, UfsError>

  /** One component further. */
  function Step(p: Buffer, sb: Superblock, at: Place, name: seq<Byte>): Resolution {
    if !at.inode.IsDir() then Success(None)
    else
      match FindLive(DirSlots(p, sb, at.inode), name)
      case None => Success(None)
      case Some(hit) =>
        match ReadInode(p, sb, hit.ino)
        case Failure(e) => Failure(e)
        case Success(inode) => Success(Some(Place(hit.ino, inode)))
  }

  /** From one place down a list of names. */
  function Resolve(p: Buffer, sb: Superblock, from: Resolution, names: seq<seq<Byte>>): Resolution
    decreases |names|
  {
    if names == [] || from.Failure? || from.value.None? then from
    else Resolve(p, sb, Step(p, sb, from.value.value, names[0]), names[1..])
  }

  function Root(p: Buffer, sb: Superblock): Resolution {
    match ReadInode(p, sb, UFS_ROOTINO)
    case Failure(e) => Failure(e)
    case Success(inode) => Success(Some(Place(UFS_ROOTINO, inode)))
  }

  /** What resolving a path must return. */
  function ByPath(p: Buffer, sb: Superblock, path: seq<Byte>): Resolution {
    Resolve(p, sb, Root(p, sb), Components(path))
  }

  lemma {:induction false} ResolveAppend(p: Buffer, sb: Superblock, from: Resolution, a: seq<seq<Byte>>, b: seq<seq<Byte>>)
    ensures Resolve(p, sb, from, a + b) == Resolve(p, sb, Resolve(p, sb, from, a), b)
    decreases |a|
  {
    hide Step;
    if a == [] {
      assert a + b == b;
    } else if from.Success? && from.value.Some? {
      assert (a + b)[1..] == a[1..] + b;
      ResolveAppend(p, sb, Step(p, sb, from.value.value, a[0]), a[1..], b);
    }
  }

  /** Once resolution has failed or found nothing, the remaining names change nothing. */
  lemma ResolveStops(p: Buffer, sb: Superblock, from: Resolution, names: seq<seq<Byte>>)
    requires from.Failure? || from.value.None?
    ensures Resolve(p, sb, from, names) == from
  {
  }

  lemma ResolveOne(p: Buffer, sb: Superblock, at: Place, name: seq<Byte>)
    ensures Resolve(p, sb, Success(Some(at)), [name]) == Step(p, sb, at, name)
  {
    hide Step;
  }

  /** The state of the loop after `i` components: either the walk is still under way, or its outcome is final. */
  lemma LoopStep(p: Buffer, sb: Superblock, from: Resolution, comps: seq<seq<Byte>>, i: nat, at: Place)
    requires i < |comps|
    requires Resolve(p, sb, from, NonEmpty(comps[..i])) == Success(Some(at))
    ensures var next := if comps[i] == [] then Success(Some(at)) else Step(p, sb, at, comps[i]);
            && Resolve(p, sb, from, NonEmpty(comps[..i + 1])) == next
            && (next.Failure? || next.value.None? ==> Resolve(p, sb, from, NonEmpty(comps)) == next)
  {
    hide Step, Resolve, NonEmpty;
    NonEmptyStep(comps, i);
    if comps[i] != [] {
      ResolveAppend(p, sb, from, NonEmpty(comps[..i]), [comps[i]]);
      ResolveOne(p, sb, at, comps[i]);
    } else {
      assert NonEmpty(comps[..i + 1]) == NonEmpty(comps[..i]);
    }
    var next := Resolve(p, sb, from, NonEmpty(comps[..i + 1]));
    assert comps == comps[..i + 1] + comps[i + 1..];
    NonEmptyAppend(comps[..i + 1], comps[i + 1..]);
    ResolveAppend(p, sb, from, NonEmpty(comps[..i + 1]), NonEmpty(comps[i + 1..]));
    if next.Failure? || next.value.None? {
      ResolveStops(p, sb, next, NonEmpty(comps[i + 1..]));
    }
  }

  lemma NonEmptyStep(comps: seq<seq<Byte>>, i: nat)
    requires i < |comps|
    ensures NonEmpty(comps[..i + 1]) == NonEmpty(comps[..i]) + (if comps[i] == [] then [] else [comps[i]])
  {
    assert comps[..i + 1][..i] == comps[..i];
  }

  method ReadByPath(p: Buffer, sb: Superblock, path: seq<Byte>) returns (r: Resolution)
    ensures r == ByPath(p, sb, path)
  {
    hide DirSlots, ReadInode, Split, Resolve, NonEmpty;
    ResolveStopsAtRoot(p, sb, Components(path));
    var root :- ReadInode(p, sb, UFS_ROOTINO);
    var curIno: U64 := UFS_ROOTINO;
    var cur := root;
    var comps := Split(path);
    ghost var from := Root(p, sb);
    ResolveNone(p, sb, from, comps);
    for i := 0 to |comps|
      invariant Resolve(p, sb, from, NonEmpty(comps[..i])) == Success(Some(Place(curIno, cur)))
    {
      var comp := comps[i];
      LoopStep(p, sb, from, comps, i, Place(curIno, cur));
      if comp == [] {
        continue;
      }
      if !cur.IsDir() {
        return Success(None);
      }
      var entries := ListDirEntries(p, sb, cur);
      var found := FindLive(entries, comp);
      if found.None? {
        return Success(None);
      }
      curIno := found.value.ino;
      cur :- ReadInode(p, sb, curIno);
    }
    assert comps[..|comps|] == comps;
    return Success(Some(Place(curIno, cur)));
  }

  lemma ResolveNone(p: Buffer, sb: Superblock, from: Resolution, comps: seq<seq<Byte>>)
    ensures Resolve(p, sb, from, NonEmpty(comps[..0])) == from
  {
  }

  lemma ResolveStopsAtRoot(p: Buffer, sb: Superblock, names: seq<seq<Byte>>)
    ensures Root(p, sb).Failure? ==> Resolve(p, sb, Root(p, sb), names) == Root(p, sb)
  {
    hide ReadInode;
    if Root(p, sb).Failure? {
      ResolveStops(p, sb, Root(p, sb), names);
    }
  }

  // ── laws ───────────────────────────────────────────────────────────────────

  lemma {:induction false} NonEmptyAppend(a: seq<seq<Byte>>, b: seq<seq<Byte>>)
    ensures NonEmpty(a + b) == NonEmpty(a) + NonEmpty(b)
    decreases |b|
  {
    if b == [] {
      assert a + b == a;
    } else {
      assert (a + b)[..|a + b| - 1] == a + b[..|b| - 1];
      NonEmptyAppend(a, b[..|b| - 1]);
    }
  }

  /** One slash between components. */
  ghost function Join(cs: seq<seq<Byte>>): seq<Byte> {
    if cs == [] then []
    else if |cs| == 1 then cs[0]
    else cs[0] + [47] + Join(cs[1..])
  }

  /** Joining undoes splitting, and no component holds a slash. */
  lemma {:induction false} JoinSplit(path: seq<Byte>)
    ensures Join(Split(path)) == path
    ensures forall c | c in Split(path) :: 47 !in c
    decreases |path|
  {
    if path != [] {
      var rest := Split(path[1..]);
      JoinSplit(path[1..]);
      assert path == [path[0]] + path[1..];
      if path[0] == 47 {
        assert ([[]] + rest)[1..] == rest;
      } else {
        var head := [path[0]] + rest[0];
        assert rest[0] in rest && forall c | c in rest[1..] :: c in rest;
        assert ([head] + rest[1..])[1..] == rest[1..];
        JoinHead([path[0]], rest);
      }
    }
  }

  lemma JoinHead(a: seq<Byte>, cs: seq<seq<Byte>>)
    requires cs != []
    ensures Join([a + cs[0]] + cs[1..]) == a + Join(cs)
  {
    hide Join;
    var longer := [a + cs[0]] + cs[1..];
    assert longer[1..] == cs[1..];
    JoinUnfold(cs);
    JoinUnfold(longer);
    if |cs| > 1 {
      assert a + (cs[0] + [47] + Join(cs[1..])) == a + cs[0] + [47] + Join(cs[1..]);
    }
  }

  lemma JoinUnfold(cs: seq<seq<Byte>>)
    requires cs != []
    ensures Join(cs) == if |cs| == 1 then cs[0] else cs[0] + [47] + Join(cs[1..])
  {
  }

  lemma {:induction false} SplitPlain(c: seq<Byte>)
    requires 47 !in c
    ensures Split(c) == [c]
    decreases |c|
  {
    if c != [] {
      assert c == [c[0]] + c[1..];
      SplitPlain(c[1..]);
    }
  }

  /** Splitting undoes joining slash-free components. */
  lemma {:induction false} SplitJoin(cs: seq<seq<Byte>>)
    requires cs != [] && forall c | c in cs :: 47 !in c
    ensures Split(Join(cs)) == cs
    decreases |cs|
  {
    hide Split;
    assert cs[0] in cs && forall c | c in cs[1..] :: c in cs;
    SplitPlain(cs[0]);
    assert cs == [cs[0]] + cs[1..];
    if |cs| > 1 {
      SplitJoin(cs[1..]);
      SplitAtSlash(cs[0], Join(cs[1..]));
    }
  }

  lemma {:induction false} NonEmptyAll(cs: seq<seq<Byte>>)
    requires forall c | c in cs :: c != []
    ensures NonEmpty(cs) == cs
    decreases |cs|
  {
    if cs != [] {
      var front := cs[..|cs| - 1];
      assert cs[|cs| - 1] in cs && forall c | c in front :: c in cs;
      NonEmptyAll(front);
    }
  }

  /** The components of names joined by slashes are the names, with or without a slash in front. */
  lemma ComponentsJoin(names: seq<seq<Byte>>)
    requires forall c | c in names :: c != [] && 47 !in c
    ensures Components(Join(names)) == names && Components([47] + Join(names)) == names
  {
    hide Split, NonEmpty;
    if names == [] {
      NoComponents();
    } else {
      SplitJoin(names);
      NonEmptyAll(names);
    }
    ComponentsAtSlash([], Join(names));
    NoComponents();
    assert [] + [SLASH] + Join(names) == [47] + Join(names);
  }

  lemma {:induction false} SplitAtSlash(a: seq<Byte>, b: seq<Byte>)
    ensures Split(a + [SLASH] + b) == Split(a) + Split(b)
    decreases |a|
  {
    var s := a + [SLASH] + b;
    if a == [] {
      assert s[1..] == b;
    } else {
      assert s[1..] == a[1..] + [SLASH] + b;
      SplitAtSlash(a[1..], b);
    }
  }

  /** Resolving `a/b` is resolving `b` from where `a` leads. */
  lemma PathConcatenation(p: Buffer, sb: Superblock, a: seq<Byte>, b: seq<Byte>)
    ensures ByPath(p, sb, a + [SLASH] + b) == Resolve(p, sb, ByPath(p, sb, a), Components(b))
  {
    hide Resolve, NonEmpty, Split;
    SplitAtSlash(a, b);
    NonEmptyAppend(Split(a), Split(b));
    ResolveAppend(p, sb, Root(p, sb), Components(a), Components(b));
  }

  /** Slashes at the ends, and doubled slashes, never matter. */
  lemma ExtraSlashes(p: Buffer, sb: Superblock, a: seq<Byte>, b: seq<Byte>)
    ensures ByPath(p, sb, [SLASH] + a) == ByPath(p, sb, a)
    ensures ByPath(p, sb, a + [SLASH]) == ByPath(p, sb, a)
    ensures ByPath(p, sb, a + [SLASH] + [SLASH] + b) == ByPath(p, sb, a + [SLASH] + b)
  {
    hide Components, Resolve, Root;
    NoComponents();
    ComponentsAtSlash([], a);
    assert [] + [SLASH] + a == [SLASH] + a;
    assert Components([SLASH] + a) == Components(a);
    ComponentsAtSlash(a, []);
    assert a + [SLASH] + [] == a + [SLASH];
    assert Components(a + [SLASH]) == Components(a);
    ComponentsAtSlash(a + [SLASH], b);
    ComponentsAtSlash(a, b);
    assert Components(a + [SLASH] + [SLASH] + b) == Components(a + [SLASH] + b);
  }

  lemma NoComponents()
    ensures Components([]) == []
  {
    assert NonEmpty([[]]) == NonEmpty([[]][..0]);
  }

  lemma ComponentsAtSlash(a: seq<Byte>, b: seq<Byte>)
    ensures Components(a + [SLASH] + b) == Components(a) + Components(b)
  {
    hide NonEmpty, Split;
    SplitAtSlash(a, b);
    NonEmptyAppend(Split(a), Split(b));
  }

  /** Looking names up one at a time. */
  function LookupAll(p: Buffer, sb: Superblock, dir: U64, names: seq<seq<Byte>>): Result<Option<U64>, UfsError>
    decreases |names|
  {
    if names == [] then Success(Some(dir))
    else
      match Lookup(p, sb, dir, names[0])
      case Failure(e) => Failure(e)
      case Success(None) => Success(None)
      case Success(Some(ino)) => LookupAll(p, sb, ino, names[1..])
  }

  predicate Found<T>(r: Result<Option<T>, UfsError>) {
    r.Success? && r.value.Some?
  }

  /** Every inode on the way down is readable, and every one that is searched is a directory. */
  predicate ThroughDirectories(p: Buffer, sb: Superblock, ino: U64, names: seq<seq<Byte>>)
    decreases |names|
  {
    match ReadInode(p, sb, ino)
    case Failure(_) => false
    case Success(inode) =>
      names == [] ||
      (inode.IsDir() &&
       match Lookup(p, sb, ino, names[0])
       case Success(Some(next)) => ThroughDirectories(p, sb, next, names[1..])
       case _ => true)
  }

  lemma {:induction false} ResolveIsLookup(p: Buffer, sb: Superblock, at: Place, names: seq<seq<Byte>>)
    requires ReadInode(p, sb, at.ino) == Success(at.inode)
    ensures var r, looked := Resolve(p, sb, Success(Some(at)), names), LookupAll(p, sb, at.ino, names);
            && (Found(r) <==> Found(looked) && ThroughDirectories(p, sb, at.ino, names))
            && (Found(r) ==> looked.value.value == r.value.value.ino
                             && ReadInode(p, sb, r.value.value.ino) == Success(r.value.value.inode))
    decreases |names|
  {
    hide ReadInode, DirSlots, Live;
    if names != [] {
      FindInLive(DirSlots(p, sb, at.inode), names[0]);
      var next := Step(p, sb, at, names[0]);
      if Found(next) {
        ResolveIsLookup(p, sb, next.value.value, names[1..]);
      } else {
        ResolveStops(p, sb, next, names[1..]);
      }
    }
  }

  /**
   * A path resolves if and only if looking its names up one by one finds something and goes through readable
   * directories to a readable inode; both then yield the same inode.
   */
  lemma PathIsLookups(p: Buffer, sb: Superblock, path: seq<Byte>)
    ensures var r, looked := ByPath(p, sb, path), LookupAll(p, sb, UFS_ROOTINO, Components(path));
            && (Found(r) <==> Found(looked) && ThroughDirectories(p, sb, UFS_ROOTINO, Components(path)))
            && (Found(r) ==> looked.value.value == r.value.value.ino
                             && ReadInode(p, sb, r.value.value.ino) == Success(r.value.value.inode))
  {
    hide ReadInode, Components, Resolve, LookupAll;
    ResolveStopsAtRoot(p, sb, Components(path));
    if Root(p, sb).Success? {
      ResolveIsLookup(p, sb, Root(p, sb).value.value, Components(path));
    }
  }
}
