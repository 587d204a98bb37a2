/** When a walk fails hard, and with which result. */
module Failures {
  import opened Options
  import opened Posix
  import opened Paths
  import opened Protocol
  import opened Collections
  import opened Watches
  import opened Walk
  import opened WalkGrowth
  import opened Coverage

  // ---------- the reference: directories that end a walk ----------

  /** `opendir` fails, and not because the directory is closed to us, gone or no directory. */
  predicate CannotOpen(w: Answers, dir: string) {
    match w.opendir(dir)
    case NotOpened(e) => e != EACCES && e != ENOENT && e != ENOTDIR
    case Opened(_) => false
  }

  /** `inotify_add_watch` is refused, and not because the directory is closed to us or gone. */
  predicate CannotWatch(w: Answers, dir: string) {
    w.opendir(dir).Opened? &&
    match w.addWatch(dir)
    case Refused(e) => e != EACCES && e != ENOENT
    case Descriptor(_) => false
  }

  /** The walk comes to `dir` and ends there. */
  predicate EndsWalk(w: Answers, mounts: seq<string>, dir: string) {
    !Crosses(dir, mounts) && (CannotOpen(w, dir) || CannotWatch(w, dir))
  }

  /** The program goes on after all failures but a refusal for other reasons than the limit on watches. */
  function EndCode(w: Answers, dir: string): int {
    if w.opendir(dir).Opened? && w.addWatch(dir).Refused? && w.addWatch(dir).addErr != ENOSPC then ERR_ABORT
    else ERR_CONTINUE
  }

  /** The walk of `root` looks at `dir`: it is the root, or an admitted directory lists it as a directory. */
  ghost predicate LooksAt(w: World, mounts: seq<string>, root: string, dir: string) {
    dir == root || exists p :: Reachable(w, mounts, root, p) && ListsChild(w, p, dir)
  }

  ghost predicate ListsChild(w: World, p: string, dir: string) {
    w.opendir(p).Opened? && exists e :: e in w.opendir(p).entries && Followed(p, e, w) && dir == Child(p, e.name)
  }

  /** The directories below `dir` that would end a walk, in the order in which it comes to them. */
  ghost function Obstacles(w: World, mounts: seq<string>, dir: string): seq<string>
    decreases if |dir| < PATH_MAX then PATH_MAX - |dir| else 0, 1, 0
  {
    if EndsWalk(w, mounts, dir) then [dir]
    else if !Admitted(w, mounts, dir) then []
    else ObstaclesBy(w, mounts, dir, w.opendir(dir).entries)
  }

  ghost function ObstaclesBy(w: World, mounts: seq<string>, dir: string, entries: seq<Entry>): seq<string>
    requires |dir| < PATH_MAX
    decreases PATH_MAX - |dir|, 0, |entries|
  {
    if entries == [] then []
    else
      (if Followed(dir, entries[0], w) then Obstacles(w, mounts, Child(dir, entries[0].name)) else [])
      + ObstaclesBy(w, mounts, dir, entries[1..])
  }

  /** What a walk of `dir` answers. */
  ghost function Verdict(w: World, mounts: seq<string>, dir: string): int {
    var obstacles := Obstacles(w, mounts, dir);
    if obstacles != [] then EndCode(w, obstacles[0])
    else if Admitted(w, mounts, dir) then w.addWatch(dir).wd
    else ERR_IGNORE
  }

  // ---------- the obstacles are those the walk looks at ----------

  /** Looked at from one of `entries` of `dir`. */
  ghost predicate LooksAtBy(w: World, mounts: seq<string>, dir: string, entries: seq<Entry>, d: string) {
    exists e :: e in entries && Followed(dir, e, w) && LooksAt(w, mounts, Child(dir, e.name), d)
  }

  lemma LooksAtSplits(w: World, mounts: seq<string>, dir: string, d: string)
    ensures LooksAt(w, mounts, dir, d) <==>
      d == dir || (Admitted(w, mounts, dir) && LooksAtBy(w, mounts, dir, w.opendir(dir).entries, d))
  {
    if d != dir && LooksAt(w, mounts, dir, d) {
      var p :| Reachable(w, mounts, dir, p) && ListsChild(w, p, d);
      ReachableSplits(w, mounts, dir, p);
      if p == dir {
        var e :| e in w.opendir(p).entries && Followed(p, e, w) && d == Child(p, e.name);
        assert LooksAt(w, mounts, Child(dir, e.name), d);
      } else {
        var e :| e in w.opendir(dir).entries && Followed(dir, e, w) && Reachable(w, mounts, Child(dir, e.name), p);
        assert LooksAt(w, mounts, Child(dir, e.name), d);
      }
    }
    if Admitted(w, mounts, dir) && LooksAtBy(w, mounts, dir, w.opendir(dir).entries, d) {
      var e :| e in w.opendir(dir).entries && Followed(dir, e, w) && LooksAt(w, mounts, Child(dir, e.name), d);
      ReachableSplits(w, mounts, dir, dir);
      if d == Child(dir, e.name) {
        assert ListsChild(w, dir, d);
      } else {
        var p :| Reachable(w, mounts, Child(dir, e.name), p) && ListsChild(w, p, d);
        assert ReachableBy(w, mounts, dir, w.opendir(dir).entries, p);
        ReachableSplits(w, mounts, dir, p);
      }
    }
  }

  lemma {:induction false} ObstaclesExactly(w: World, mounts: seq<string>, dir: string, d: string)
    ensures d in Obstacles(w, mounts, dir) <==> LooksAt(w, mounts, dir, d) && EndsWalk(w, mounts, d)
    decreases if |dir| < PATH_MAX then PATH_MAX - |dir| else 0, 1, 0
  {
    LooksAtSplits(w, mounts, dir, d);
    if !EndsWalk(w, mounts, dir) && Admitted(w, mounts, dir) {
      ObstaclesByExactly(w, mounts, dir, w.opendir(dir).entries, d);
    }
  }

  lemma {:induction false} ObstaclesByExactly(w: World, mounts: seq<string>, dir: string, entries: seq<Entry>,
          d: string)
    requires |dir| < PATH_MAX
    ensures d in ObstaclesBy(w, mounts, dir, entries) <==>
      LooksAtBy(w, mounts, dir, entries, d) && EndsWalk(w, mounts, d)
    decreases PATH_MAX - |dir|, 0, |entries|
  {
    if entries != [] {
      if Followed(dir, entries[0], w) { ObstaclesExactly(w, mounts, Child(dir, entries[0].name), d); }
      ObstaclesByExactly(w, mounts, dir, entries[1..], d);
      assert entries == [entries[0]] + entries[1..];
    }
  }

  // ---------- the walk answers the verdict ----------

  lemma {:induction false} WalkAnswers(s: Inotify, path: string, parent: Option<Ptr>, mounts: seq<string>, w: World,
          dom: iset<string>)
    requires Valid(s) && Live(s, parent) && NulFree(path) && Consistent(s, w, dom)
    requires forall p | Reachable(w, mounts, path, p) :: p in dom
    ensures WalkTree(s, path, parent, true, mounts, w).1 == Verdict(w, mounts, path)
    decreases if |path| < PATH_MAX then PATH_MAX - |path| else 0, 1, 0
  {
    if Admitted(w, mounts, path) {
      forall p | ReachableBy(w, mounts, path, w.opendir(path).entries, p) ensures p in dom {
        ReachableSplits(w, mounts, path, p);
      }
      ReachableSplits(w, mounts, path, path);
      var wd := w.addWatch(path).wd;
      var t := AddWatch(s, path, parent, w).0;
      assert KnownAt(s, w, path);
      if TableGet(s, wd) == None { InsertConsistent(s, w, dom, path, parent); }
      EntriesAnswer(t, path, wd, w.opendir(path).entries, mounts, w, dom);
    }
  }

  lemma {:induction false} EntriesAnswer(s: Inotify, path: string, id: int, entries: seq<Entry>, mounts: seq<string>,
          w: World, dom: iset<string>)
    requires Valid(s) && NulFree(path) && |path| < PATH_MAX && Consistent(s, w, dom)
    requires forall p | ReachableBy(w, mounts, path, entries, p) :: p in dom
    requires forall e | e in entries :: FileName(e.name)
    ensures var obstacles := ObstaclesBy(w, mounts, path, entries);
      WalkEntries(s, path, id, entries, mounts, w).1 == if obstacles != [] then EndCode(w, obstacles[0]) else id
    decreases PATH_MAX - |path|, 0, |entries|
  {
    if entries != [] {
      assert entries == [entries[0]] + entries[1..];
      if !Followed(path, entries[0], w) {
        EntriesAnswer(s, path, id, entries[1..], mounts, w, dom);
      } else {
        assert entries[0] in entries;
        var child := Child(path, entries[0].name);
        WalkAnswers(s, child, TableGet(s, id), mounts, w, dom);
        var (t, sub) := WalkTree(s, child, TableGet(s, id), true, mounts, w);
        if !Hard(sub) {
          WalkCovers(s, child, TableGet(s, id), mounts, w, dom);
          EntriesAnswer(t, path, id, entries[1..], mounts, w, dom);
        }
      }
    }
  }

  /** A walk fails hard if and only if it looks at a directory, past the mount check, that it cannot open for other
      reasons than EACCES, ENOENT and ENOTDIR, or can open but not watch for other reasons than EACCES and ENOENT. The
      first of them decides: ERR_ABORT if it is refused for another reason than ENOSPC, ERR_CONTINUE otherwise.
      Without one, the walk answers the descriptor of its root, or ERR_IGNORE if the root is not admitted. */
  lemma WalkFailsHardIff(s: Inotify, path: string, parent: Option<Ptr>, mounts: seq<string>, w: World)
    requires Valid(s) && Live(s, parent) && NulFree(path) && Consistent(s, w, ReachableFrom(w, mounts, path))
    ensures var r := WalkTree(s, path, parent, true, mounts, w).1;
      && (Hard(r) <==> exists d :: LooksAt(w, mounts, path, d) && EndsWalk(w, mounts, d))
      && (forall d :: d in Obstacles(w, mounts, path) <==> LooksAt(w, mounts, path, d) && EndsWalk(w, mounts, d))
      && (Hard(r) <==> Obstacles(w, mounts, path) != [])
      && (Hard(r) ==> r == EndCode(w, Obstacles(w, mounts, path)[0]))
      && (!Hard(r) ==> r == if Admitted(w, mounts, path) then w.addWatch(path).wd else ERR_IGNORE)
  {
    WalkAnswers(s, path, parent, mounts, w, ReachableFrom(w, mounts, path));
    forall d ensures d in Obstacles(w, mounts, path) <==> LooksAt(w, mounts, path, d) && EndsWalk(w, mounts, d) {
      ObstaclesExactly(w, mounts, path, d);
    }
    var obstacles := Obstacles(w, mounts, path);
    if obstacles != [] { assert obstacles[0] in obstacles; }
  }

  // ---------- one directory ----------

  /** What the slot of `wd` tells: it is free, or its node has this descriptor and this path. */
  ghost predicate FreeOrSame(s: Inotify, wd: nat, path: string)
    requires Valid(s)
  {
    TableGet(s, wd) == None || Watched(s, wd, path)
  }

  /** The node in the slot has the descriptor under another path that names the same directory. */
  ghost predicate Intersects(s: Inotify, w: Answers, wd: nat, path: string)
    requires Valid(s)
  {
    match TableGet(s, wd)
    case None => false
    case Some(p) =>
      var n := s.nodes[p];
      n.wd == wd && n.path != path && w.realpath(n.path) == w.realpath(path) && w.realpath(path) != None
  }

  /** What `add_watch` answers, and that it remembers the limit on watches. */
  lemma AddWatchAnswers(s: Inotify, path: string, parent: Option<Ptr>, w: Answers)
    requires Valid(s) && Live(s, parent) && NulFree(path)
    ensures var (t, r) := AddWatch(s, path, parent, w);
      match w.addWatch(path)
      case Descriptor(wd) =>
        && (r == wd <==> FreeOrSame(s, wd, path))
        && (r == ERR_IGNORE <==> Intersects(s, w, wd, path))
        && (r == ERR_ABORT <==> !FreeOrSame(s, wd, path) && !Intersects(s, w, wd, path))
        && (r == wd || r == ERR_IGNORE || r == ERR_ABORT)
        && t.limitReached == s.limitReached && t.out == s.out
      case Refused(e) =>
        && (r == ERR_IGNORE <==> e == EACCES || e == ENOENT)
        && (r == ERR_CONTINUE <==> e == ENOSPC)
        && (r == ERR_ABORT <==> e != EACCES && e != ENOENT && e != ENOSPC)
        && (t.limitReached <==> s.limitReached || e == ENOSPC)
        && t.out == s.out + if e == ENOSPC && !s.limitReached then [LimitMessage] else []
  {
    if w.addWatch(path).Refused? { assert s.out + [] == s.out; }
  }

  // ---------- links ----------

  /** Paths that can be watched have the same descriptor if and only if they name the same directory, and
      different descriptors have different slots. */
  ghost predicate Canonical(w: Answers, capacity: nat)
    requires 0 < capacity
  {
    forall p, q | w.addWatch(p).Descriptor? && w.addWatch(q).Descriptor? :: SameIff(w, p, q, capacity)
  }

  ghost predicate SameIff(w: Answers, p: string, q: string, capacity: nat)
    requires 0 < capacity && w.addWatch(p).Descriptor? && w.addWatch(q).Descriptor?
  {
    var a, b := w.addWatch(p).wd, w.addWatch(q).wd;
    && w.realpath(p).Some?
    && (w.realpath(p) == w.realpath(q) <==> a == b)
    && (a != b ==> Slot(a, capacity) != Slot(b, capacity))
  }

  /** Every live node still has the descriptor that its path has. */
  ghost predicate Current(s: Inotify, w: Answers) {
    forall p | p in s.nodes :: w.addWatch(s.nodes[p].path) == Descriptor(s.nodes[p].wd)
  }

  lemma AddWatchStaysCurrent(s: Inotify, path: string, parent: Option<Ptr>, w: World)
    requires Valid(s) && Live(s, parent) && NulFree(path) && Canonical(w, s.capacity) && Current(s, w)
    ensures var (t, r) := AddWatch(s, path, parent, w);
      Current(t, w) && t.capacity == s.capacity && (r == ERR_ABORT || r == ERR_CONTINUE ==> w.addWatch(path).Refused?)
  {
    if w.addWatch(path).Descriptor? {
      var wd := w.addWatch(path).wd;
      if TableGet(s, wd) == None {
        InsertGrows(s, wd, path, parent);
      } else {
        var n := s.nodes[TableGet(s, wd).value];
        assert SameIff(w, path, n.path, s.capacity) && SameIff(w, n.path, path, s.capacity);
      }
    }
  }

  /** Where several paths lead to one directory, cycles included, a walk fails for no other reasons than in a tree. */
  lemma {:induction false} LinksEndNoWalk(s: Inotify, path: string, parent: Option<Ptr>, mounts: seq<string>, w: World)
    requires Valid(s) && Live(s, parent) && NulFree(path) && Canonical(w, s.capacity) && Current(s, w)
    ensures var (t, r) := WalkTree(s, path, parent, true, mounts, w);
      && (Hard(r) ==> exists d :: EndsWalk(w, mounts, d) && r == EndCode(w, d))
      && (!Hard(r) ==> Current(t, w) && t.capacity == s.capacity)
    decreases if |path| < PATH_MAX then PATH_MAX - |path| else 0, 1, 0
  {
    if Crosses(path, mounts) {
    } else if w.opendir(path).NotOpened? {
      if CannotOpen(w, path) { assert EndsWalk(w, mounts, path); }
    } else {
      var (t, id) := AddWatch(s, path, parent, w);
      AddWatchStaysCurrent(s, path, parent, w);
      AddWatchAnswers(s, path, parent, w);
      if id < 0 {
        if Hard(id) { assert EndsWalk(w, mounts, path) && id == EndCode(w, path); }
      } else {
        LinksEndNoListing(t, path, id, w.opendir(path).entries, mounts, w);
      }
    }
  }

  lemma {:induction false} LinksEndNoListing(s: Inotify, path: string, id: int, entries: seq<Entry>,
          mounts: seq<string>, w: World)
    requires Valid(s) && NulFree(path) && |path| < PATH_MAX && Canonical(w, s.capacity) && Current(s, w) && 0 <= id
    requires forall e | e in entries :: FileName(e.name)
    ensures var (t, r) := WalkEntries(s, path, id, entries, mounts, w);
      && (Hard(r) ==> exists d :: EndsWalk(w, mounts, d) && r == EndCode(w, d))
      && (!Hard(r) ==> Current(t, w) && t.capacity == s.capacity)
    decreases PATH_MAX - |path|, 0, |entries|
  {
    if entries != [] {
      if !Followed(path, entries[0], w) {
        LinksEndNoListing(s, path, id, entries[1..], mounts, w);
      } else {
        assert entries[0] in entries;
        var child := Child(path, entries[0].name);
        LinksEndNoWalk(s, child, TableGet(s, id), mounts, w);
        var (t, sub) := WalkTree(s, child, TableGet(s, id), true, mounts, w);
        if !Hard(sub) { LinksEndNoListing(t, path, id, entries[1..], mounts, w); }
      }
    }
  }

  // ---------- file systems that do not tell the type of an entry ----------

  /** The listing says of each entry whether `stat` finds a directory, or nothing. */
  ghost predicate Honest(w: World) {
    forall p, e | w.opendir(p).Opened? && e in w.opendir(p).entries :: HonestEntry(w, p, e)
  }

  predicate HonestEntry(w: Answers, dir: string, e: Entry) {
    e.kind != DtUnknown ==> (e.kind == DtDir <==> w.stat(Child(dir, e.name)) == Found(Directory))
  }

  function Untold(entries: seq<Entry>): (r: seq<Entry>)
    ensures |r| == |entries| && forall i | 0 <= i < |r| :: r[i] == Entry(entries[i].name, DtUnknown)
  {
    seq(|entries|, i requires 0 <= i < |entries| => Entry(entries[i].name, DtUnknown))
  }

  function Blind(listing: Listing): Listing {
    if listing.Opened? then Opened(Untold(listing.entries)) else listing
  }

  /** The same file system, saying nothing. */
  ghost function Untyped(w: World): (v: World)
    ensures v.addWatch == w.addWatch && v.stat == w.stat && v.realpath == w.realpath
    ensures forall p :: v.opendir(p) == Blind(w.opendir(p))
  {
    UntypedSane(w);
    w.(opendir := p => Blind(w.opendir(p)))
  }

  lemma UntypedSane(w: World)
    ensures Sane(w.(opendir := p => Blind(w.opendir(p))))
  {
    forall p | w.opendir(p).Opened?
      ensures DistinctNames(Untold(w.opendir(p).entries))
        && forall e | e in Untold(w.opendir(p).entries) :: FileName(e.name)
    {
      var entries := w.opendir(p).entries;
      forall e | e in Untold(entries) ensures FileName(e.name) {
        var i :| 0 <= i < |entries| && Untold(entries)[i] == e;
        assert entries[i] in entries;
      }
    }
  }

  /** A walk is the same whether or not the file system tells types. */
  lemma {:induction false} TypesDoNotMatter(s: Inotify, path: string, parent: Option<Ptr>, recursive: bool,
          mounts: seq<string>, w: World)
    requires Valid(s) && Live(s, parent) && NulFree(path) && Honest(w)
    ensures WalkTree(s, path, parent, recursive, mounts, Untyped(w)) == WalkTree(s, path, parent, recursive, mounts, w)
    decreases if |path| < PATH_MAX then PATH_MAX - |path| else 0, 1, 0
  {
    if !Crosses(path, mounts) && recursive && w.opendir(path).Opened? {
      var (t, id) := AddWatch(s, path, parent, w);
      assert AddWatch(s, path, parent, Untyped(w)) == (t, id);
      if 0 <= id { TypesDoNotMatterBelow(t, path, id, w.opendir(path).entries, mounts, w); }
    }
  }

  lemma {:induction false} TypesDoNotMatterBelow(s: Inotify, path: string, id: int, entries: seq<Entry>,
          mounts: seq<string>, w: World)
    requires Valid(s) && NulFree(path) && |path| < PATH_MAX && Honest(w)
    requires forall e | e in entries :: FileName(e.name) && HonestEntry(w, path, e)
    ensures forall e | e in Untold(entries) :: FileName(e.name)
    ensures WalkEntries(s, path, id, Untold(entries), mounts, Untyped(w)) ==
      WalkEntries(s, path, id, entries, mounts, w)
    decreases PATH_MAX - |path|, 0, |entries|
  {
    forall e | e in Untold(entries) ensures FileName(e.name) {
      var i :| 0 <= i < |entries| && Untold(entries)[i] == e;
      assert entries[i] in entries;
    }
    if entries != [] {
      var v, e := Untyped(w), entries[0];
      assert e in entries && Untold(entries)[0] == Entry(e.name, DtUnknown)
        && Untold(entries)[1..] == Untold(entries[1..]);
      assert Followed(path, Entry(e.name, DtUnknown), v) <==> Followed(path, e, w);
      if Followed(path, e, w) {
        var child := Child(path, e.name);
        TypesDoNotMatter(s, child, TableGet(s, id), true, mounts, w);
        var (t, sub) := WalkTree(s, child, TableGet(s, id), true, mounts, w);
        if !Hard(sub) { TypesDoNotMatterBelow(t, path, id, entries[1..], mounts, w); }
      } else {
        TypesDoNotMatterBelow(s, path, id, entries[1..], mounts, w);
      }
    }
  }
}
