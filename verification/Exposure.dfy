/** When a walk can end up watching a mount: the exact condition, over everything the kernel may answer. */
module Exposure {
  import opened Options
  import opened Posix
  import opened Paths
  import opened Collections
  import opened Watches
  import opened Walk
  import opened WalkGrowth
  import opened Coverage

  /** Nothing that lies under a mount is watched. Paths are compared as text. */
  ghost predicate Outside(s: Inotify, mounts: seq<string>) {
    forall p, j | p in s.nodes && 0 <= j < |mounts| :: !LiesUnder(mounts[j], s.nodes[p].path)
  }

  // ---------- the condition ----------

  /** The directories from `dir` down along `names`. */
  function Dirs(dir: string, names: seq<string>): seq<string>
    decreases |names|
  {
    [dir] + if names == [] then [] else Dirs(Child(dir, names[0]), names[1..])
  }

  predicate Descends(dir: string, names: seq<string>) {
    && dir != "" && |PathOf(dir, names)| < PATH_MAX
    && forall i | 0 <= i < |names| :: EntryName(names[i])
  }

  ghost function FreeSlots(s: Inotify): set<int>
    requires Shape(s)
  {
    set k | 0 <= k < s.capacity && s.table[k] == None
  }

  ghost function Missing(s: Inotify, dirs: seq<string>): set<string> {
    set d | d in dirs && d !in LivePaths(s)
  }

  /** A walk of `path` can come to `mount` along `names`: these are the components of the mount's path below
      `path`, or none if the mount is at or above it; no prefix check stops the walk on the way; and there
      is a free slot for each directory on the way not yet watched. */
  ghost predicate ExposedAlong(s: Inotify, path: string, recursive: bool, inner: seq<string>, mount: string,
          names: seq<string>)
    requires Shape(s)
  {
    && (recursive || names == [])
    && (TrimSlash(mount) == PathOf(path, names) || (names == [] && LiesUnder(mount, path)))
    && Descends(path, names)
    && !Crosses(PathOf(path, names), inner)
    && |Missing(s, Dirs(path, names))| <= |FreeSlots(s)|
  }

  ghost predicate Exposed(s: Inotify, path: string, recursive: bool, inner: seq<string>, mounts: seq<string>)
    requires Shape(s)
  {
    exists j, names :: 0 <= j < |mounts| && ExposedAlong(s, path, recursive, inner, mounts[j], names)
  }

  // ---------- chains of names ----------

  lemma {:induction false} DirsBelow(dir: string, names: seq<string>, d: string)
    requires d in Dirs(dir, names)
    ensures |dir| <= |d| <= |PathOf(dir, names)| && d <= PathOf(dir, names)
    decreases |names|
  {
    PathOfBelow(dir, names);
    if d != dir { DirsBelow(Child(dir, names[0]), names[1..], d); }
  }

  /** An ancestor of the end of a chain that is not above its start ends a shorter chain. */
  lemma {:induction false} AncestorOnChain(dir: string, names: seq<string>, mount: string) returns (k: nat)
    requires forall i | 0 <= i < |names| :: EntryName(names[i])
    requires IsParentPath(dir, mount) && IsParentPath(mount, PathOf(dir, names))
    ensures k <= |names| && mount == PathOf(dir, names[..k])
    ensures forall d | d in Dirs(dir, names[..k]) :: d in Dirs(dir, names)
    decreases |names|
  {
    if mount == dir {
      k := 0;
    } else {
      PathOfBelow(dir, names);
      assert names != [];
      var child := Child(dir, names[0]);
      PathOfBelow(child, names[1..]);
      AncestorsComparable(child, mount, PathOf(dir, names));
      if IsParentPath(mount, child) { AtChild(dir, names[0], mount); }
      k := AncestorOnChain(child, names[1..], mount);
      k := k + 1;
      assert names[..k][1..] == names[1..][..k - 1];
    }
  }

  lemma AtChild(dir: string, name: string, mount: string)
    requires EntryName(name) && IsParentPath(dir, mount) && dir != mount && IsParentPath(mount, Child(dir, name))
    ensures mount == Child(dir, name)
  {
    var child := Child(dir, name);
    assert forall i | |dir| < i < |child| :: child[i] == name[i - |dir| - 1];
  }

  // ---------- without exposure no mount is watched ----------

  /** `q` is at or below `path`, and all directories down to it are watched. */
  ghost predicate Charted(t: Inotify, path: string, q: string) {
    exists names :: ChartedAlong(t, path, q, names)
  }

  ghost predicate ChartedAlong(t: Inotify, path: string, q: string, names: seq<string>) {
    && PathOf(path, names) == q && Descends(path, names)
    && forall d | d in Dirs(path, names) :: d in LivePaths(t)
  }

  /** `u` is the forest before anything was rolled back. */
  ghost predicate Peak(s: Inotify, u: Inotify, t: Inotify, path: string) {
    && Valid(u) && Extends(s, u)
    && (forall p | p in t.nodes :: p in u.nodes && t.nodes[p].path == u.nodes[p].path)
    && (forall p | p in u.nodes && p !in s.nodes :: Charted(u, path, u.nodes[p].path))
  }

  lemma LivePathsGrow(s: Inotify, t: Inotify)
    requires Valid(s) && Extends(s, t)
    ensures forall p | p in s.nodes :: p in t.nodes && t.nodes[p].path == s.nodes[p].path
    ensures LivePaths(s) <= LivePaths(t)
  {
    forall p | p in s.nodes ensures p in t.nodes && t.nodes[p].path == s.nodes[p].path { assert NodeOk(s, p); }
  }

  lemma ChartedUp(t: Inotify, path: string, name: string, q: string)
    requires EntryName(name) && path != "" && path in LivePaths(t) && Charted(t, Child(path, name), q)
    ensures Charted(t, path, q)
  {
    var names :| ChartedAlong(t, Child(path, name), q, names);
    var all := [name] + names;
    assert all[1..] == names;
    assert ChartedAlong(t, path, q, all);
  }

  lemma ChartedLater(t: Inotify, u: Inotify, path: string, q: string)
    requires Valid(t) && Extends(t, u) && Charted(t, path, q)
    ensures Charted(u, path, q)
  {
    var names :| ChartedAlong(t, path, q, names);
    LivePathsGrow(t, u);
    assert ChartedAlong(u, path, q, names);
  }

  lemma PeaksCompose(s: Inotify, t: Inotify, u: Inotify, v: Inotify, path: string)
    requires Valid(t) && Peak(s, t, t, path) && Peak(t, u, v, path)
    ensures Peak(s, u, v, path)
  {
    GrowthComposes(s, t, u);
    forall p | p in u.nodes && p !in s.nodes ensures Charted(u, path, u.nodes[p].path) {
      if p in t.nodes {
        assert NodeOk(t, p);
        ChartedLater(t, u, path, t.nodes[p].path);
      }
    }
  }

  lemma AddWatchPeak(s: Inotify, path: string, parent: Option<Ptr>, w: World)
    requires Valid(s) && Live(s, parent) && NulFree(path)
    ensures var t := AddWatch(s, path, parent, w).0; Peak(s, t, t, path)
  {
    var t := AddWatch(s, path, parent, w).0;
    AddWatchGrows(s, path, parent, w);
    forall p | p in t.nodes && p !in s.nodes ensures Charted(t, path, t.nodes[p].path) {
      assert t.nodes[p].path == path && path in LivePaths(t);
      assert ChartedAlong(t, path, path, []);
    }
  }

  lemma {:induction false} WalkPeak(s: Inotify, path: string, parent: Option<Ptr>, recursive: bool,
          mounts: seq<string>, w: World)
    returns (u: Inotify)
    requires Valid(s) && Live(s, parent) && NulFree(path)
    ensures var (t, r) := WalkTree(s, path, parent, recursive, mounts, w);
      Peak(s, u, t, path) && (!Hard(r) ==> u == t)
    decreases if |path| < PATH_MAX then PATH_MAX - |path| else 0, 1, 0
  {
    u := s;
    if !Crosses(path, mounts) && !(recursive && w.opendir(path).NotOpened?) {
      var (t, id) := AddWatch(s, path, parent, w);
      AddWatchGrows(s, path, parent, w);
      AddWatchPeak(s, path, parent, w);
      u := t;
      if recursive && 0 <= id {
        u := EntriesPeak(t, path, id, w.opendir(path).entries, mounts, w);
        PeaksCompose(s, t, u, WalkEntries(t, path, id, w.opendir(path).entries, mounts, w).0, path);
      }
    }
  }

  lemma {:induction false} EntriesPeak(s: Inotify, path: string, id: int, entries: seq<Entry>, mounts: seq<string>,
          w: World)
    returns (u: Inotify)
    requires Valid(s) && NulFree(path) && Resolvable(path) && Watched(s, id, path)
    requires forall e | e in entries :: FileName(e.name)
    ensures var (t, r) := WalkEntries(s, path, id, entries, mounts, w);
      Peak(s, u, t, path) && (!Hard(r) ==> u == t)
    decreases PATH_MAX - |path|, 0, |entries|
  {
    if entries == [] {
      u := s;
    } else if !Followed(path, entries[0], w) {
      u := EntriesPeak(s, path, id, entries[1..], mounts, w);
    } else {
      assert entries[0] in entries;
      var n := TableGet(s, id).value;
      var child := Child(path, entries[0].name);
      var (t, sub) := WalkTree(s, child, Some(n), true, mounts, w);
      u := WalkPeak(s, child, Some(n), true, mounts, w);
      PeakUp(s, u, t, path, entries[0].name);
      if Hard(sub) {
        RemoveAges(t, id);
        PeakShrinks(s, u, t, id, path);
      } else {
        WalkTreeGrows(s, child, Some(n), true, mounts, w);
        assert NodeOk(s, n) && NodeOk(t, n);
        u := EntriesPeak(t, path, id, entries[1..], mounts, w);
        PeaksCompose(s, t, u, WalkEntries(t, path, id, entries[1..], mounts, w).0, path);
      }
    }
  }

  lemma PeakUp(s: Inotify, u: Inotify, t: Inotify, path: string, name: string)
    requires Valid(s) && Peak(s, u, t, Child(path, name)) && EntryName(name) && path != "" && path in LivePaths(s)
    ensures Peak(s, u, t, path)
  {
    LivePathsGrow(s, u);
    forall p | p in u.nodes && p !in s.nodes ensures Charted(u, path, u.nodes[p].path) {
      ChartedUp(u, path, name, u.nodes[p].path);
    }
  }

  lemma PeakShrinks(s: Inotify, u: Inotify, t: Inotify, id: int, path: string)
    requires Valid(t) && Peak(s, u, t, path)
    ensures Peak(s, u, Remove(t, id), path)
  {
    RemoveAges(t, id);
  }

  // ---------- counting slots ----------

  lemma {:induction false} InjectionSize<A, B>(a: set<A>, f: A -> B, b: set<B>)
    requires forall x | x in a :: f(x) in b
    requires forall x, y | x in a && y in a && f(x) == f(y) :: x == y
    ensures |a| <= |b|
  {
    if x :| x in a {
      InjectionSize(a - {x}, f, b - {f(x)});
    }
  }

  /** The slot of some node at `d`. */
  ghost function SlotOf(s: Inotify, d: string): (k: int)
    requires Shape(s)
    ensures d in LivePaths(s) ==>
      exists p :: p in s.nodes && s.nodes[p].path == d && k == Slot(s.nodes[p].wd, s.capacity)
  {
    if p :| p in s.nodes && s.nodes[p].path == d then Slot(s.nodes[p].wd, s.capacity) else 0
  }

  /** Directories watched later that were not watched before have slots that were free. */
  lemma NewDirsHadRoom(s: Inotify, u: Inotify, dirs: seq<string>)
    requires Valid(s) && Valid(u) && Extends(s, u)
    requires forall d | d in dirs :: d in LivePaths(u)
    ensures |Missing(s, dirs)| <= |FreeSlots(s)|
  {
    var f := d => SlotOf(u, d);
    forall q | q in s.nodes
      ensures q in u.nodes && u.nodes[q].path == s.nodes[q].path && u.table[Slot(s.nodes[q].wd, s.capacity)] == Some(q)
    {
      assert NodeOk(s, q) && NodeOk(u, q);
    }
    forall d | d in Missing(s, dirs) ensures f(d) in FreeSlots(s) {
      var p :| p in u.nodes && u.nodes[p].path == d && f(d) == Slot(u.nodes[p].wd, u.capacity);
      assert NodeOk(u, p);
      assert SlotOk(s, f(d));
    }
    forall d, e | d in Missing(s, dirs) && e in Missing(s, dirs) && f(d) == f(e) ensures d == e {
      var p :| p in u.nodes && u.nodes[p].path == d && f(d) == Slot(u.nodes[p].wd, u.capacity);
      var q :| q in u.nodes && u.nodes[q].path == e && f(e) == Slot(u.nodes[q].wd, u.capacity);
      assert NodeOk(u, p) && NodeOk(u, q);
    }
    InjectionSize(Missing(s, dirs), f, FreeSlots(s));
  }

  lemma FewerMissing(s: Inotify, some: seq<string>, all: seq<string>)
    requires forall d | d in some :: d in all
    ensures |Missing(s, some)| <= |Missing(s, all)|
  {
    InjectionSize(Missing(s, some), d => d, Missing(s, all));
  }

  /** A chain to some path at or below a mount gives one to the mount itself, or starts below it. */
  lemma ChainExposes(s: Inotify, path: string, recursive: bool, inner: seq<string>, mounts: seq<string>,
          names: seq<string>, j: nat)
    requires Shape(s) && j < |mounts| && (recursive || names == []) && Descends(path, names)
    requires LiesUnder(mounts[j], PathOf(path, names)) && !Crosses(PathOf(path, names), inner)
    requires |Missing(s, Dirs(path, names))| <= |FreeSlots(s)|
    ensures Exposed(s, path, recursive, inner, mounts)
  {
    var mount := TrimSlash(mounts[j]);
    PathOfBelow(path, names);
    AncestorsComparable(path, mount, PathOf(path, names));
    var some := [];
    if IsParentPath(mount, path) {
      FewerMissing(s, Dirs(path, []), Dirs(path, names));
    } else {
      var k := AncestorOnChain(path, names, mount);
      some := names[..k];
      FewerMissing(s, Dirs(path, some), Dirs(path, names));
    }
    assert PathOf(path, some) <= PathOf(path, names);
    assert ExposedAlong(s, path, recursive, inner, mounts[j], some);
  }

  lemma NewNodeIsCharted(s: Inotify, path: string, parent: Option<Ptr>, recursive: bool, inner: seq<string>, w: World,
          p: Ptr)
    returns (u: Inotify)
    requires Valid(s) && CanHold(s, parent, path) && NulFree(path)
    requires var t := WalkTree(s, path, parent, recursive, inner, w).0;
      p in t.nodes && (p in s.nodes ==> t.nodes[p].path != s.nodes[p].path)
    ensures Valid(u) && Extends(s, u)
    ensures var q := WalkTree(s, path, parent, recursive, inner, w).0.nodes[p].path;
      Charted(u, path, q) && !Crosses(q, inner) && (!recursive ==> q == path)
  {
    var t := WalkTree(s, path, parent, recursive, inner, w).0;
    u := WalkPeak(s, path, parent, recursive, inner, w);
    LivePathsGrow(s, u);
    WalkTreePlaces(s, path, parent, recursive, inner, w);
    assert Placed(t.nodes, p, path, inner);
    if !recursive { AddWatchGrows(s, path, parent, w); }
  }

  lemma WatchedMountWasExposed(s: Inotify, path: string, parent: Option<Ptr>, recursive: bool, inner: seq<string>,
          mounts: seq<string>, w: World)
    requires Valid(s) && CanHold(s, parent, path) && NulFree(path) && Outside(s, mounts)
    requires !Outside(WalkTree(s, path, parent, recursive, inner, w).0, mounts)
    ensures Exposed(s, path, recursive, inner, mounts)
  {
    var t := WalkTree(s, path, parent, recursive, inner, w).0;
    var p, j :| p in t.nodes && 0 <= j < |mounts| && LiesUnder(mounts[j], t.nodes[p].path);
    var u := NewNodeIsCharted(s, path, parent, recursive, inner, w, p);
    var names :| ChartedAlong(u, path, t.nodes[p].path, names);
    PathOfBelow(path, names);
    NewDirsHadRoom(s, u, Dirs(path, names));
    ChainExposes(s, path, recursive, inner, mounts, names, j);
  }

  // ---------- with exposure some answers lead there ----------

  lemma SomeElement<T>(a: set<T>) returns (k: T)
    requires a != {}
    ensures k in a
  {
    k :| k in a;
  }

  /** Different slots for all of `dirs`, free ones for those not watched. */
  lemma {:induction false} Assign(dirs: set<string>, free: set<int>) returns (slots: map<string, int>)
    requires |dirs| <= |free|
    ensures slots.Keys == dirs && forall d | d in dirs :: slots[d] in free
    ensures forall d, e | d in dirs && e in dirs && slots[d] == slots[e] :: d == e
  {
    if dirs == {} {
      slots := map[];
    } else {
      var d :| d in dirs;
      assert |dirs - {d}| == |dirs| - 1;
      var k := SomeElement(free);
      slots := Assign(dirs - {d}, free - {k});
      slots := slots[d := k];
    }
  }

  /** The entry that leads from `p` on down the chain, if `p` is on it. */
  function NextEntries(dir: string, names: seq<string>, p: string): (entries: seq<Entry>)
    ensures |entries| <= 1
    ensures (forall i | 0 <= i < |names| :: EntryName(names[i])) ==> forall e | e in entries :: FileName(e.name)
    decreases |names|
  {
    if names == [] then []
    else if p == dir then [Entry(names[0], DtDir)]
    else NextEntries(Child(dir, names[0]), names[1..], p)
  }

  /** A file system in which all paths are directories, and only those of the chain list anything. */
  ghost function ChainWorld(dir: string, names: seq<string>, wds: map<string, nat>): (w: World)
    requires forall i | 0 <= i < |names| :: EntryName(names[i])
  {
    Answers(
      p => if Resolvable(p) then Opened(NextEntries(dir, names, p)) else NotOpened(ENOENT),
      p => if Resolvable(p) && p in wds then Descriptor(wds[p]) else Refused(ENOENT),
      p => if Resolvable(p) then Found(Directory) else NotFound(ENOENT),
      _ => None)
  }

  /** `w` leads down the chain. */
  ghost predicate LeadsDown(w: World, dir: string, names: seq<string>, wds: map<string, nat>)
    decreases |names|
  {
    && dir in wds && w.addWatch(dir) == Descriptor(wds[dir])
    && w.opendir(dir) == Opened(if names == [] then [] else [Entry(names[0], DtDir)])
    && (names != [] ==> LeadsDown(w, Child(dir, names[0]), names[1..], wds))
  }

  lemma {:induction false} ChainWorldLeads(w: World, dir: string, names: seq<string>, wds: map<string, nat>)
    requires forall p | Resolvable(p) && |dir| <= |p| :: w.opendir(p) == Opened(NextEntries(dir, names, p))
    requires forall p | Resolvable(p) && p in wds :: w.addWatch(p) == Descriptor(wds[p])
    requires Descends(dir, names) && forall d | d in Dirs(dir, names) :: d in wds
    ensures LeadsDown(w, dir, names, wds)
    decreases |names|
  {
    PathOfBelow(dir, names);
    assert dir in Dirs(dir, names);
    if names != [] {
      forall d | d in Dirs(Child(dir, names[0]), names[1..]) ensures d in Dirs(dir, names) {}
      ChainWorldLeads(w, Child(dir, names[0]), names[1..], wds);
    }
  }

  /** Each directory of the chain is watched already, or its slot is free and no other's. */
  ghost predicate Ready(s: Inotify, dirs: seq<string>, wds: map<string, nat>)
    requires Valid(s)
  {
    && (forall d {:trigger d in dirs} | d in dirs :: d in wds && (Watched(s, wds[d], d) || TableGet(s, wds[d]) == None))
    && (forall d, e | d in dirs && e in dirs && d in wds && e in wds
      && d != e :: Slot(wds[d], s.capacity) != Slot(wds[e], s.capacity))
  }

  lemma {:induction false} WalkFollowsChain(s: Inotify, dir: string, parent: Option<Ptr>, names: seq<string>,
          inner: seq<string>, w: World, wds: map<string, nat>)
    requires Valid(s) && Live(s, parent) && NulFree(dir) && Descends(dir, names)
    requires !Crosses(PathOf(dir, names), inner)
    requires LeadsDown(w, dir, names, wds) && Ready(s, Dirs(dir, names), wds)
    ensures var (t, r) := WalkTree(s, dir, parent, true, inner, w);
      0 <= r && PathOf(dir, names) in LivePaths(t)
    decreases |names|
  {
    PathOfBelow(dir, names);
    ReadyIsAdded(s, dir, parent, names, w, wds);
    if names != [] {
      var (t, wd) := AddWatch(s, dir, parent, w);
      StillReady(s, dir, parent, names, w, wds);
      WalkFollowsChain(t, Child(dir, names[0]), TableGet(t, wd), names[1..], inner, w, wds);
      WalkOneEntry(s, dir, parent, names[0], inner, w);
    }
  }

  lemma ReadyIsAdded(s: Inotify, dir: string, parent: Option<Ptr>, names: seq<string>, w: World, wds: map<string, nat>)
    requires Valid(s) && Live(s, parent) && NulFree(dir)
    requires dir in wds && w.addWatch(dir) == Descriptor(wds[dir]) && Ready(s, Dirs(dir, names), wds)
    ensures var (t, r) := AddWatch(s, dir, parent, w); 0 <= r && dir in LivePaths(t)
  {
    assert dir in Dirs(dir, names);
    AddWatchGrows(s, dir, parent, w);
  }

  lemma WalkOneEntry(s: Inotify, dir: string, parent: Option<Ptr>, name: string, inner: seq<string>, w: World)
    requires Valid(s) && Live(s, parent) && NulFree(dir) && !Crosses(dir, inner) && EntryName(name)
    requires w.opendir(dir) == Opened([Entry(name, DtDir)])
    requires var (t, id) := AddWatch(s, dir, parent, w);
      0 <= id && 0 <= WalkTree(t, Child(dir, name), TableGet(t, id), true, inner, w).1
    ensures var (t, id) := AddWatch(s, dir, parent, w);
      WalkTree(s, dir, parent, true, inner, w) == (WalkTree(t, Child(dir, name), TableGet(t, id), true, inner, w).0, id)
  {
    var (t, id) := AddWatch(s, dir, parent, w);
    var entries := [Entry(name, DtDir)];
    assert Followed(dir, entries[0], w) && entries[0] in entries;
    var u := WalkTree(t, Child(dir, name), TableGet(t, id), true, inner, w).0;
    assert WalkEntries(u, dir, id, entries[1..], inner, w) == (u, id);
  }

  lemma StillReady(s: Inotify, dir: string, parent: Option<Ptr>, names: seq<string>, w: World, wds: map<string, nat>)
    requires Valid(s) && Live(s, parent) && NulFree(dir) && names != []
    requires dir in wds && w.addWatch(dir) == Descriptor(wds[dir]) && Ready(s, Dirs(dir, names), wds)
    ensures Ready(AddWatch(s, dir, parent, w).0, Dirs(Child(dir, names[0]), names[1..]), wds)
  {
    var t := AddWatch(s, dir, parent, w).0;
    assert dir in Dirs(dir, names);
    AddWatchGrows(s, dir, parent, w);
    forall d | d in Dirs(Child(dir, names[0]), names[1..])
      ensures d in Dirs(dir, names) && d in wds && (Watched(t, wds[d], d) || TableGet(t, wds[d]) == None)
    {
      DirsBelow(Child(dir, names[0]), names[1..], d);
      assert d in Dirs(dir, names) && d != dir;
      if Watched(s, wds[d], d) {
        var p := TableGet(s, wds[d]).value;
        assert NodeOk(s, p) && NodeOk(t, p);
      }
    }
  }

  ghost function DescriptorAt(s: Inotify, d: string): (wd: nat)
    requires Valid(s)
    ensures d in LivePaths(s) ==> Watched(s, wd, d)
  {
    if p :| p in s.nodes && s.nodes[p].path == d then
      assert NodeOk(s, p);
      s.nodes[p].wd
    else 0
  }

  lemma FreeSlotIsKey(s: Inotify, k: int)
    requires Shape(s) && k in FreeSlots(s)
    ensures 0 <= k && Slot(k, s.capacity) == k && TableGet(s, k) == None
  {
    SmallRemainder(k, s.capacity);
  }

  lemma SmallRemainder(k: int, n: nat)
    requires 0 <= k < n
    ensures k % n == k
  {
  }

  /** The descriptor for `d`: a free slot if it is missing, that of its node otherwise. */
  ghost predicate Chosen(s: Inotify, slots: map<string, int>, d: string, wd: nat)
    requires Valid(s)
  {
    if d in slots then slots[d] in FreeSlots(s) && wd == slots[d] else Watched(s, wd, d)
  }

  lemma ChosenDiffer(s: Inotify, slots: map<string, int>, d: string, x: nat, e: string, y: nat)
    requires Valid(s) && Chosen(s, slots, d, x) && Chosen(s, slots, e, y) && d != e
    requires d in slots && e in slots ==> slots[d] != slots[e]
    ensures Slot(x, s.capacity) != Slot(y, s.capacity)
  {
    if d in slots { FreeSlotIsKey(s, x); }
    if e in slots { FreeSlotIsKey(s, y); }
  }

  lemma ReadyWith(s: Inotify, dirs: seq<string>, slots: map<string, int>, wds: map<string, nat>)
    requires Valid(s) && slots.Keys == Missing(s, dirs)
    requires forall d | d in slots :: slots[d] in FreeSlots(s)
    requires forall d, e | d in slots && e in slots && slots[d] == slots[e] :: d == e
    requires forall d | d in dirs :: d in wds && wds[d] == if d in slots then slots[d] else DescriptorAt(s, d)
    ensures Ready(s, dirs, wds)
  {
    forall d | d in dirs ensures Chosen(s, slots, d, wds[d]) && (Watched(s, wds[d], d) || TableGet(s, wds[d]) == None) {
      assert d in Missing(s, dirs) || d in LivePaths(s);
      if d in slots { FreeSlotIsKey(s, slots[d]); }
    }
    forall d, e | d in dirs && e in dirs && d in wds && e in wds && d != e
      ensures Slot(wds[d], s.capacity) != Slot(wds[e], s.capacity)
    {
      ChosenDiffer(s, slots, d, wds[d], e, wds[e]);
    }
  }

  lemma ChooseDescriptors(s: Inotify, dirs: seq<string>) returns (wds: map<string, nat>)
    requires Valid(s) && |Missing(s, dirs)| <= |FreeSlots(s)|
    ensures Ready(s, dirs, wds) && forall d | d in dirs :: d in wds
  {
    var slots := Assign(Missing(s, dirs), FreeSlots(s));
    wds := map d | d in dirs :: if d in slots then slots[d] else DescriptorAt(s, d);
    ReadyWith(s, dirs, slots, wds);
  }

  /** If the names lead past all checks and there is room, some answers lead the walk to the end of the chain. */
  lemma WalkReaches(s: Inotify, path: string, parent: Option<Ptr>, recursive: bool, inner: seq<string>,
          names: seq<string>)
    returns (w: World)
    requires Valid(s) && Live(s, parent) && NulFree(path)
    requires (recursive || names == []) && Descends(path, names) && !Crosses(PathOf(path, names), inner)
    requires |Missing(s, Dirs(path, names))| <= |FreeSlots(s)|
    ensures forall p | Resolvable(p) :: w.stat(p) == Found(Directory)
    ensures var (t, r) := WalkTree(s, path, parent, recursive, inner, w);
      0 <= r && PathOf(path, names) in LivePaths(t)
  {
    var wds := ChooseDescriptors(s, Dirs(path, names));
    w := ChainWorld(path, names, wds);
    ChainWorldLeads(w, path, names, wds);
    if recursive {
      WalkFollowsChain(s, path, parent, names, inner, w, wds);
    } else {
      assert path in Dirs(path, names);
      AddWatchGrows(s, path, parent, w);
    }
  }

  /** Over everything the kernel may answer, a walk stays outside the mounts if and only if none is exposed. */
  lemma WalkStaysOutsideIff(s: Inotify, path: string, parent: Option<Ptr>, recursive: bool, inner: seq<string>,
          mounts: seq<string>)
    requires Valid(s) && CanHold(s, parent, path) && NulFree(path) && Outside(s, mounts)
    ensures (forall w: World :: Outside(WalkTree(s, path, parent, recursive, inner, w).0, mounts)) <==>
      !Exposed(s, path, recursive, inner, mounts)
  {
    forall w: World | !Outside(WalkTree(s, path, parent, recursive, inner, w).0, mounts)
      ensures Exposed(s, path, recursive, inner, mounts)
    {
      WatchedMountWasExposed(s, path, parent, recursive, inner, mounts, w);
    }
    if Exposed(s, path, recursive, inner, mounts) {
      var j, names :| 0 <= j < |mounts| && ExposedAlong(s, path, recursive, inner, mounts[j], names);
      var w := WalkReaches(s, path, parent, recursive, inner, names);
      ReachedMount(WalkTree(s, path, parent, recursive, inner, w).0, mounts, j, PathOf(path, names));
    }
  }

  lemma ReachedMount(t: Inotify, mounts: seq<string>, j: nat, q: string)
    requires j < |mounts| && LiesUnder(mounts[j], q) && q in LivePaths(t)
    ensures !Outside(t, mounts)
  {
    var p :| p in t.nodes && t.nodes[p].path == q;
  }
}
