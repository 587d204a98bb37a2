/** Mount exclusion: exactly when `update_roots`, an event or a restored root keeps unwatchable mounts unwatched. */
module MountExclusion {
  import opened Options
  import opened Posix
  import opened Paths
  import opened Collections
  import opened Watches
  import opened Walk
  import opened WalkGrowth
  import opened MainLoop
  import opened Runs
  import opened Coverage
  import opened Exposure
  import opened Protocol
  import Leaks

  // ---------- the scan of `register_roots` ----------

  ghost predicate MountPaths(mounts: seq<string>) {
    forall j | 0 <= j < |mounts| :: MountPath(mounts[j])
  }

  /** What the scan compares. */
  lemma {:induction false} ScanComparesText(mounts: seq<string>, root: string)
    ensures var scan := ScanMounts(mounts, root);
      && (scan.skip <==> exists j :: 0 <= j < |mounts| && IsParentPath(mounts[j], root))
      && (!scan.skip ==> forall mount :: mount in scan.inner <==> mount in mounts && IsParentPath(root, mount))
  {
    if mounts != [] {
      ScanComparesText(mounts[1..], root);
      assert forall j | 0 < j < |mounts| :: mounts[j] == mounts[1..][j - 1];
      assert mounts == [mounts[0]] + mounts[1..];
    }
  }

  /** A root is skipped if and only if it lies under a mount, but for the mount "/", of which only "/" and a
      root with two leading slashes count as lying under it. Otherwise, unless the root ends with a slash,
      `inner` has exactly the mounts that lie under it. */
  lemma ScanIsExact(mounts: seq<string>, root: string)
    requires MountPaths(mounts) && root != "" && root[0] == '/'
    ensures var scan := ScanMounts(mounts, root);
      && (scan.skip <==> exists j ::
            0 <= j < |mounts| && LiesUnder(mounts[j], root) && (mounts[j] == "/" && root != "/" ==> root[1] == '/'))
      && (!scan.skip && TrimSlash(root) == root ==>
            forall mount :: mount in scan.inner <==> mount in mounts && LiesUnder(root, mount))
  {
    ScanComparesText(mounts, root);
    assert forall j | 0 <= j < |mounts| :: IsParentPath(mounts[j], root) <==>
      LiesUnder(mounts[j], root) && (mounts[j] == "/" && root != "/" ==> root[1] == '/');
  }

  /** The three checks cover all cases but the mount "/": two path-ancestors of one path are comparable. */
  lemma ChecksCover(root: string, path: string, mounts: seq<string>)
    requires MountPaths(mounts) && !ScanMounts(mounts, root).skip
    requires IsParentPath(root, path) && !Crosses(path, ScanMounts(mounts, root).inner)
    ensures forall j | 0 <= j < |mounts| && mounts[j] != "/" :: !LiesUnder(mounts[j], path)
  {
    ScanComparesText(mounts, root);
    var inner := ScanMounts(mounts, root).inner;
    forall j | 0 <= j < |mounts| && mounts[j] != "/" ensures !LiesUnder(mounts[j], path) {
      assert TrimSlash(mounts[j]) == mounts[j];
      if IsParentPath(root, mounts[j]) {
        assert mounts[j] in inner;
        var k :| 0 <= k < |inner| && inner[k] == mounts[j];
        assert !(inner[k] <= path);
      } else if IsParentPath(mounts[j], path) {
        AncestorsComparable(root, mounts[j], path);
      }
    }
  }

  // ---------- watching one root ----------

  /** Watching `root` can come to a mount. */
  ghost predicate RootExposed(s: Inotify, root: string, inner: seq<string>, mounts: seq<string>)
    requires Shape(s)
  {
    var path := Unflatten(root);
    Resolvable(path) && Exposed(s, TrimSlash(path), path == root, inner, mounts)
  }

  lemma WatchedMountRootExposed(s: Inotify, root: string, inner: seq<string>, mounts: seq<string>, w: World)
    requires Valid(s) && NulFree(root) && Outside(s, mounts)
    requires !Outside(Watch(s, root, inner, w).0, mounts)
    ensures RootExposed(s, root, inner, mounts)
  {
    var path := Unflatten(root);
    var recursive := path == root && w.stat(path) == Found(Directory);
    WatchedMountWasExposed(s, TrimSlash(path), None, recursive, inner, mounts, w);
    var j, names :| 0 <= j < |mounts| && ExposedAlong(s, TrimSlash(path), recursive, inner, mounts[j], names);
    assert ExposedAlong(s, TrimSlash(path), path == root, inner, mounts[j], names);
  }

  lemma WatchReaches(s: Inotify, root: string, inner: seq<string>, names: seq<string>) returns (w: World)
    requires Valid(s) && NulFree(root) && Resolvable(Unflatten(root))
    requires var walked := TrimSlash(Unflatten(root));
      && (Unflatten(root) == root || names == []) && Descends(walked, names) && !Crosses(PathOf(walked, names), inner)
      && |Missing(s, Dirs(walked, names))| <= |FreeSlots(s)|
    ensures var (t, r) := Watch(s, root, inner, w);
      0 <= r && PathOf(TrimSlash(Unflatten(root)), names) in LivePaths(t)
  {
    var path := Unflatten(root);
    w := WalkReaches(s, TrimSlash(path), None, path == root, inner, names);
    assert w.stat(path) == Found(Directory);
  }

  lemma WatchStaysOutsideIff(s: Inotify, root: string, inner: seq<string>, mounts: seq<string>)
    requires Valid(s) && NulFree(root) && Outside(s, mounts)
    ensures (forall w: World :: Outside(Watch(s, root, inner, w).0, mounts)) <==> !RootExposed(s, root, inner, mounts)
  {
    forall w: World | !Outside(Watch(s, root, inner, w).0, mounts) ensures RootExposed(s, root, inner, mounts) {
      WatchedMountRootExposed(s, root, inner, mounts, w);
    }
    if RootExposed(s, root, inner, mounts) {
      var walked := TrimSlash(Unflatten(root));
      var j, names :| 0 <= j < |mounts| && ExposedAlong(s, walked, Unflatten(root) == root, inner, mounts[j], names);
      var w := WatchReaches(s, root, inner, names);
      ReachedMount(Watch(s, root, inner, w).0, mounts, j, PathOf(walked, names));
    }
  }

  // ---------- `update_roots` ----------

  /** The mount lies `names` below a root with a trailing slash, and the table has a slot for each directory
      on the way. */
  predicate HiddenAlong(root: string, mount: string, names: seq<string>, capacity: nat) {
    && names != [] && |names| < capacity
    && Descends(TrimSlash(root), names)
    && mount == PathOf(TrimSlash(root), names)
  }

  /** A root that is handed to `watch` and may exist. */
  ghost predicate Watchable(root: string, mounts: seq<string>) {
    var path := Unflatten(root);
    && Resolvable(path) && path[0] == '/' && TrimSlash(path) != ""
    && !ScanMounts(mounts, path).skip
  }

  /** Registering `root` can come to a mount: one behind the root's trailing slash, or "/" itself. */
  ghost predicate Escapes(root: string, mounts: seq<string>, capacity: nat) {
    HidesMount(root, mounts, capacity) || ("/" in mounts && Watchable(root, mounts))
  }

  /** A recursive root that is scanned, ends with a slash and has a mount below it. */
  ghost predicate HidesMount(root: string, mounts: seq<string>, capacity: nat) {
    && root != "" && root[0] == '/' && root[|root| - 1] == '/'
    && !ScanMounts(mounts, root).skip
    && exists j, names :: 0 <= j < |mounts| && HiddenAlong(root, mounts[j], names, capacity)
  }

  lemma {:induction false} DirsSize(dir: string, names: seq<string>)
    ensures |Dirs(dir, names)| == |names| + 1
    ensures |set d | d in Dirs(dir, names)| == |names| + 1
    decreases |names|
  {
    var all := set d | d in Dirs(dir, names);
    if names == [] {
      assert all == {dir};
    } else {
      var child := Child(dir, names[0]);
      DirsSize(child, names[1..]);
      var below := set d | d in Dirs(child, names[1..]);
      if dir in below { DirsBelow(child, names[1..], dir); }
      assert all == {dir} + below;
    }
  }

  function AllSlots(n: nat): (slots: set<int>)
    ensures |slots| == n && forall k :: k in slots <==> 0 <= k < n
  {
    if n == 0 then {} else AllSlots(n - 1) + {n - 1}
  }

  /** A chain with room fits into the table. */
  lemma RoomFits(s: Inotify, dir: string, names: seq<string>)
    requires Valid(s) && |Missing(s, Dirs(dir, names))| <= |FreeSlots(s)|
    ensures |names| < s.capacity
  {
    var dirs := Dirs(dir, names);
    var wds := ChooseDescriptors(s, dirs);
    var f := d => if d in wds then Slot(wds[d], s.capacity) else 0;
    DirsSize(dir, names);
    InjectionSize((set d | d in dirs), f, AllSlots(s.capacity));
  }

  /** Only "/" and a mount behind a trailing slash escape the scan. */
  lemma ScannedRootExposed(s: Inotify, root: string, mounts: seq<string>)
    requires Valid(s) && MountPaths(mounts) && Unflatten(root) != "" && Unflatten(root)[0] == '/'
    requires !ScanMounts(mounts, Unflatten(root)).skip
    requires RootExposed(s, root, ScanMounts(mounts, Unflatten(root)).inner, mounts)
    ensures Escapes(root, mounts, s.capacity)
  {
    var path := Unflatten(root);
    var walked, inner := TrimSlash(path), ScanMounts(mounts, path).inner;
    var j, names :| 0 <= j < |mounts| && ExposedAlong(s, walked, path == root, inner, mounts[j], names);
    if mounts[j] != "/" {
      assert TrimSlash(mounts[j]) == mounts[j];
      PathOfBelow(walked, names);
      if walked == path { ChecksCover(path, PathOf(path, names), mounts); }
      assert IsParentPath(walked, path);
      ScanComparesText(mounts, path);
      if IsParentPath(mounts[j], walked) { ParentPathTransitive(mounts[j], walked, path); }
      RoomFits(s, walked, names);
      assert HiddenAlong(root, mounts[j], names, s.capacity);
    }
  }

  lemma RegisterRootStaysOutside(m: Monitor, root: string, mounts: seq<string>, w: World)
    requires Valid(m.inotify) && MountPaths(mounts) && NulFree(root) && Outside(m.inotify, mounts)
    requires !Escapes(root, mounts, m.inotify.capacity)
    ensures var t := RegisterRoot(m, root, mounts, w).monitor.inotify;
      Outside(t, mounts) && t.capacity == m.inotify.capacity
  {
    var path := Unflatten(root);
    if path != "" && path[0] == '/' && !ScanMounts(mounts, path).skip {
      var inner := ScanMounts(mounts, path).inner;
      WatchGrows(m.inotify, root, inner, w);
      if !Outside(Watch(m.inotify, root, inner, w).0, mounts) {
        WatchedMountRootExposed(m.inotify, root, inner, mounts, w);
        ScannedRootExposed(m.inotify, root, mounts);
      }
    }
  }

  lemma {:induction false} RegisterStaysOutside(m: Monitor, newRoots: seq<string>, mounts: seq<string>,
          unwatchable: seq<string>, ws: nat -> World, i: nat)
    requires Valid(m.inotify) && MountPaths(mounts) && i <= |newRoots| && Outside(m.inotify, mounts)
      && AllNulFree(newRoots)
    requires forall j | 0 <= j < |newRoots| :: !Escapes(newRoots[j], mounts, m.inotify.capacity)
    ensures Outside(Register(m, newRoots, mounts, unwatchable, ws, i).monitor.inotify, mounts)
    decreases |newRoots| - i
  {
    if i < |newRoots| {
      RegisterRootStaysOutside(m, newRoots[i], mounts, ws(i));
      var r := RegisterRoot(m, newRoots[i], mounts, ws(i));
      if r.ok { RegisterStaysOutside(r.monitor, newRoots, mounts, unwatchable + r.unwatchable, ws, i + 1); }
    }
  }

  /** In this world no root exists. */
  ghost predicate Bare(w: World) {
    forall p :: w.stat(p) == NotFound(ENOENT)
  }

  lemma BareRootChangesNothing(m: Monitor, root: string, mounts: seq<string>, w: World)
    requires Valid(m.inotify) && NulFree(root) && Bare(w)
    ensures var r := RegisterRoot(m, root, mounts, w); r.ok && r.monitor.inotify == m.inotify
  {
  }

  lemma {:induction false} BareRootsChangeNothing(m: Monitor, newRoots: seq<string>, mounts: seq<string>,
          unwatchable: seq<string>, ws: nat -> World, i: nat)
    requires Valid(m.inotify) && i <= |newRoots| && AllNulFree(newRoots)
    requires forall j: nat | i <= j < |newRoots| :: Bare(ws(j))
    ensures var r := Register(m, newRoots, mounts, unwatchable, ws, i); r.ok && r.monitor.inotify == m.inotify
    decreases |newRoots| - i
  {
    if i < |newRoots| {
      BareRootChangesNothing(m, newRoots[i], mounts, ws(i));
      var r := RegisterRoot(m, newRoots[i], mounts, ws(i));
      BareRootsChangeNothing(r.monitor, newRoots, mounts, unwatchable + r.unwatchable, ws, i + 1);
    }
  }

  /** The root is not skipped, and watching it succeeds with the forest `t`. */
  ghost predicate WatchedAs(s: Inotify, root: string, mounts: seq<string>, w: World, t: Inotify)
    requires Valid(s) && NulFree(root)
  {
    var path := Unflatten(root);
    && path != "" && path[0] == '/' && !ScanMounts(mounts, path).skip
    && var (u, id) := Watch(s, root, ScanMounts(mounts, path).inner, w);
       u == t && 0 <= id
  }

  lemma WatchedRootRegisters(m: Monitor, root: string, mounts: seq<string>, w: World, t: Inotify)
    requires Valid(m.inotify) && NulFree(root) && WatchedAs(m.inotify, root, mounts, w, t)
    ensures var r := RegisterRoot(m, root, mounts, w); r.ok && r.monitor.inotify == t
  {
  }

  lemma RegisterContinues(m: Monitor, newRoots: seq<string>, mounts: seq<string>, unwatchable: seq<string>,
          ws: nat -> World, i: nat)
    requires Valid(m.inotify) && i < |newRoots| && AllNulFree(newRoots)
    requires RegisterRoot(m, newRoots[i], mounts, ws(i)).ok
    ensures var r := RegisterRoot(m, newRoots[i], mounts, ws(i));
      Register(m, newRoots, mounts, unwatchable, ws, i) ==
        Register(r.monitor, newRoots, mounts, unwatchable + r.unwatchable, ws, i + 1)
  {
  }

  /** If only root `k` exists, registering all roots is registering it. */
  lemma {:induction false} RegisterWatchesOne(m: Monitor, newRoots: seq<string>, mounts: seq<string>,
          unwatchable: seq<string>, ws: nat -> World, i: nat, k: nat, t: Inotify)
    requires Valid(m.inotify) && i <= k < |newRoots| && AllNulFree(newRoots)
    requires forall j: nat | i <= j < |newRoots| && j != k :: Bare(ws(j))
    requires WatchedAs(m.inotify, newRoots[k], mounts, ws(k), t)
    ensures var r := Register(m, newRoots, mounts, unwatchable, ws, i); r.ok && r.monitor.inotify == t
    decreases k - i
  {
    if i < k {
      BareRootChangesNothing(m, newRoots[i], mounts, ws(i));
    } else {
      WatchedRootRegisters(m, newRoots[k], mounts, ws(k), t);
    }
    var r := RegisterRoot(m, newRoots[i], mounts, ws(i));
    RegisterContinues(m, newRoots, mounts, unwatchable, ws, i);
    if i == k {
      BareRootsChangeNothing(r.monitor, newRoots, mounts, unwatchable + r.unwatchable, ws, i + 1);
    } else {
      RegisterWatchesOne(r.monitor, newRoots, mounts, unwatchable + r.unwatchable, ws, i + 1, k, t);
    }
  }

  ghost function BareWorld(): (w: World)
    ensures Bare(w)
  {
    Answers(_ => NotOpened(ENOENT), _ => Refused(ENOENT), _ => NotFound(ENOENT), _ => None)
  }

  /** No mount scanned for a root is a prefix of the path that the walk starts with. */
  lemma StartNotCrossed(path: string, mounts: seq<string>)
    requires path != "" && !ScanMounts(mounts, path).skip
    ensures !Crosses(TrimSlash(path), ScanMounts(mounts, path).inner)
  {
    ScanComparesText(mounts, path);
    assert IsParentPath(path, path);
    var inner := ScanMounts(mounts, path).inner;
    forall j | 0 <= j < |inner| ensures !(inner[j] <= TrimSlash(path)) {
      assert inner[j] in mounts;
    }
  }

  /** If the root ends with a slash, none is a prefix of a path below it either. */
  lemma NothingCrossed(root: string, mounts: seq<string>, names: seq<string>)
    requires root != "" && root[0] == '/' && root[|root| - 1] == '/' && !ScanMounts(mounts, root).skip
    requires names != [] && Descends(TrimSlash(root), names)
    ensures !Crosses(PathOf(TrimSlash(root), names), ScanMounts(mounts, root).inner)
  {
    var walked, inner := TrimSlash(root), ScanMounts(mounts, root).inner;
    var q := PathOf(walked, names);
    PathOfBelow(Child(walked, names[0]), names[1..]);
    assert q[|root|] == Child(walked, names[0])[|root|] == names[0][0];
    ScanComparesText(mounts, root);
    assert IsParentPath(root, root);
    forall j | 0 <= j < |inner| ensures !(inner[j] <= q) {
      assert inner[j] in mounts;
    }
  }

  /** Only root `k` exists: what watching it comes to, `update_roots` comes to. */
  lemma WatchedByUpdate(m: Monitor, newRoots: seq<string>, mounts: seq<string>, k: nat, w: World,
          t: Inotify, q: string)
    returns (ws: nat -> World)
    requires Inv(m) && AllNulFree(newRoots) && k < |newRoots| && newRoots != ["/"]
    requires WatchedAs(Unregister(m).inotify, newRoots[k], mounts, w, t) && q in LivePaths(t)
    ensures q in LivePaths(UpdateRoots(m, newRoots, Some(mounts), ws).0.inotify)
  {
    ws := OneWorld(k, w);
    RegisterWatchesOne(Unregister(m), newRoots, mounts, [], ws, 0, k, t);
    UpdateRootsRegisters(m, newRoots, mounts, ws);
  }

  /** Some answers lead `update_roots` to a mount behind a trailing slash. */
  lemma HiddenMountIsReached(m: Monitor, newRoots: seq<string>, mounts: seq<string>, k: nat, mount: string,
          names: seq<string>)
    returns (ws: nat -> World)
    requires Inv(m) && AllNulFree(newRoots) && k < |newRoots| && HidesMount(newRoots[k], mounts, m.inotify.capacity)
    requires HiddenAlong(newRoots[k], mount, names, m.inotify.capacity)
    ensures mount in LivePaths(UpdateRoots(m, newRoots, Some(mounts), ws).0.inotify)
  {
    UnregisterEmpties(m);
    var w := HiddenMountIsWatched(Unregister(m).inotify, newRoots[k], mounts, mount, names);
    var t := Watch(Unregister(m).inotify, newRoots[k], ScanMounts(mounts, newRoots[k]).inner, w).0;
    ws := WatchedByUpdate(m, newRoots, mounts, k, w, t, mount);
  }

  /** And to any root that is not skipped, even if "/" is a mount. */
  lemma WatchableRootIsReached(m: Monitor, newRoots: seq<string>, mounts: seq<string>, k: nat)
    returns (ws: nat -> World)
    requires Inv(m) && AllNulFree(newRoots) && k < |newRoots| && Watchable(newRoots[k], mounts)
    ensures TrimSlash(Unflatten(newRoots[k])) in LivePaths(UpdateRoots(m, newRoots, Some(mounts), ws).0.inotify)
  {
    var path := Unflatten(newRoots[k]);
    var s := Unregister(m).inotify;
    UnregisterEmpties(m);
    RoomInEmpty(s, TrimSlash(path), []);
    StartNotCrossed(path, mounts);
    var w := WatchReaches(s, newRoots[k], ScanMounts(mounts, path).inner, []);
    var t := Watch(s, newRoots[k], ScanMounts(mounts, path).inner, w).0;
    ws := WatchedByUpdate(m, newRoots, mounts, k, w, t, TrimSlash(path));
  }

  /** Only in turn `k` anything exists. */
  ghost function OneWorld(k: nat, w: World): (ws: nat -> World)
    ensures ws(k) == w && forall j: nat | j != k :: Bare(ws(j))
  {
    var bare := BareWorld();
    j => if j == k then w else bare
  }

  lemma UpdateRootsRegisters(m: Monitor, newRoots: seq<string>, mounts: seq<string>, ws: nat -> World)
    requires Valid(m.inotify) && AllNulFree(newRoots) && newRoots != [] && newRoots != ["/"]
    ensures UpdateRoots(m, newRoots, Some(mounts), ws).0.inotify.nodes ==
      Register(Unregister(m), newRoots, mounts, [], ws, 0).monitor.inotify.nodes
  {
  }

  lemma HiddenMountIsWatched(s: Inotify, root: string, mounts: seq<string>, mount: string, names: seq<string>)
    returns (w: World)
    requires Valid(s) && (forall k | 0 <= k < |s.table| :: s.table[k] == None)
    requires NulFree(root) && HidesMount(root, mounts, s.capacity) && HiddenAlong(root, mount, names, s.capacity)
    ensures var (t, r) := Watch(s, root, ScanMounts(mounts, root).inner, w); 0 <= r && mount in LivePaths(t)
  {
    RoomInEmpty(s, TrimSlash(root), names);
    NothingCrossed(root, mounts, names);
    PathOfBelow(TrimSlash(root), names);
    w := WatchReaches(s, root, ScanMounts(mounts, root).inner, names);
  }

  lemma RoomInEmpty(s: Inotify, dir: string, names: seq<string>)
    requires Shape(s) && |names| < s.capacity && forall k | 0 <= k < |s.table| :: s.table[k] == None
    ensures |Missing(s, Dirs(dir, names))| <= |FreeSlots(s)|
  {
    DirsSize(dir, names);
    assert FreeSlots(s) == AllSlots(s.capacity);
    InjectionSize(Missing(s, Dirs(dir, names)), d => d, (set d | d in Dirs(dir, names)));
  }

  /** Over everything the kernel may answer, right after `update_roots` no watched path lies under a mount,
      whether or not it succeeded, if and only if no root hides a mount behind a trailing slash, and "/" is no
      mount or no root can be watched. */
  lemma UpdateRootsStaysOutsideIff(m: Monitor, newRoots: seq<string>, mounts: seq<string>)
    requires Inv(m) && AllNulFree(newRoots) && MountPaths(mounts)
    ensures (forall ws: nat -> World :: Outside(UpdateRoots(m, newRoots, Some(mounts), ws).0.inotify, mounts)) <==>
      (forall i | 0 <= i < |newRoots| ::
        && !HidesMount(newRoots[i], mounts, m.inotify.capacity)
        && !("/" in mounts && Watchable(newRoots[i], mounts)))
  {
    if forall i | 0 <= i < |newRoots| :: !Escapes(newRoots[i], mounts, m.inotify.capacity) {
      forall ws: nat -> World ensures Outside(UpdateRoots(m, newRoots, Some(mounts), ws).0.inotify, mounts) {
        NoMountIsWatched(m, newRoots, mounts, ws);
      }
    } else {
      var i :| 0 <= i < |newRoots| && Escapes(newRoots[i], mounts, m.inotify.capacity);
      var ws := EscapeIsReached(m, newRoots, mounts, i);
    }
  }

  lemma EscapeIsReached(m: Monitor, newRoots: seq<string>, mounts: seq<string>, i: nat) returns (ws: nat -> World)
    requires Inv(m) && AllNulFree(newRoots) && MountPaths(mounts) && i < |newRoots|
    requires Escapes(newRoots[i], mounts, m.inotify.capacity)
    ensures !Outside(UpdateRoots(m, newRoots, Some(mounts), ws).0.inotify, mounts)
  {
    if HidesMount(newRoots[i], mounts, m.inotify.capacity) {
      var j, names :| 0 <= j < |mounts| && HiddenAlong(newRoots[i], mounts[j], names, m.inotify.capacity);
      PathOfBelow(TrimSlash(newRoots[i]), names);
      ws := HiddenMountIsReached(m, newRoots, mounts, i, mounts[j], names);
      ReachedMount(UpdateRoots(m, newRoots, Some(mounts), ws).0.inotify, mounts, j, mounts[j]);
    } else {
      var j :| 0 <= j < |mounts| && mounts[j] == "/";
      ws := WatchableRootIsReached(m, newRoots, mounts, i);
      assert LiesUnder(mounts[j], TrimSlash(Unflatten(newRoots[i])));
      ReachedMount(UpdateRoots(m, newRoots, Some(mounts), ws).0.inotify, mounts, j, TrimSlash(Unflatten(newRoots[i])));
    }
  }

  lemma NoMountIsWatched(m: Monitor, newRoots: seq<string>, mounts: seq<string>, ws: nat -> World)
    requires Inv(m) && AllNulFree(newRoots) && MountPaths(mounts)
    requires forall i | 0 <= i < |newRoots| :: !Escapes(newRoots[i], mounts, m.inotify.capacity)
    ensures Outside(UpdateRoots(m, newRoots, Some(mounts), ws).0.inotify, mounts)
  {
    UnregisterEmpties(m);
    if newRoots != [] && newRoots != ["/"] {
      RegisterStaysOutside(Unregister(m), newRoots, mounts, [], ws, 0);
    }
  }

  /** The root "/a/" with the mount "/a/m": the mount is watched. */
  lemma TrailingSlashWatchesMount(capacity: nat) returns (ws: nat -> World)
    requires 1 < capacity
    ensures "/a/m" in LivePaths(UpdateRoots(Start(capacity), ["/a/"], Some(["/a/m"]), ws).0.inotify)
  {
    assert TrimSlash("/a/") == "/a" && Child("/a", "m") == "/a/m";
    assert PathOf("/a", ["m"]) == PathOf("/a/m", []);
    assert HiddenAlong("/a/", ["/a/m"][0], ["m"], capacity);
    ws := HiddenMountIsReached(Start(capacity), ["/a/"], ["/a/m"], 0, "/a/m", ["m"]);
  }

  /** The root "/a" with the mount "/", such as a network file system: `is_parent_path` does not see it. */
  lemma RootMountIsOverlooked(capacity: nat) returns (ws: nat -> World)
    requires 0 < capacity
    ensures LiesUnder("/", "/a") && !ScanMounts(["/"], "/a").skip
    ensures "/a" in LivePaths(UpdateRoots(Start(capacity), ["/a"], Some(["/"]), ws).0.inotify)
  {
    assert ScanMounts(["/"][1..], "/a") == Scan(false, [], []);
    assert Unflatten("/a") == "/a" && TrimSlash("/a") == "/a" && TrimSlash("/") == "";
    ws := WatchableRootIsReached(Start(capacity), ["/a"], ["/"], 0);
  }

  /** The mount `dir`/x also keeps the directory `dir`/y unwatched if x is a proper prefix of y, and does not
      report it as unwatchable. */
  lemma PrefixSiblingIsSkipped(capacity: nat, dir: string, x: string, y: string) returns (ws: nat -> World)
    requires 0 < capacity && NulFree(dir) && dir != "" && dir[0] == '/' && dir[|dir| - 1] != '/'
    requires EntryName(x) && EntryName(y) && x < y && |Child(dir, y)| < PATH_MAX
    ensures Wanted(ws(0), [Child(dir, x)], dir, Child(dir, y))
    ensures var (m, ok) := UpdateRoots(Start(capacity), [dir], Some([Child(dir, x)]), ws);
      && ok && m.inotify.out == [Unwatchable([Child(dir, x)])]
      && Child(dir, y) !in LivePaths(m.inotify)
  {
    var w := Leaks.TwoDescriptorsExist(dir, y, 0, 1);
    ws := _ => w;
    PrefixSiblingIsWanted(w, dir, x, y);
    PrefixSiblingRegistered(Start(capacity), dir, x, y, w);
    UpdateOneRoot(Start(capacity), dir, [Child(dir, x)], ws);
  }

  lemma PrefixSiblingRegistered(m: Monitor, dir: string, x: string, y: string, w: World)
    requires 0 < m.inotify.capacity && m == Start(m.inotify.capacity) && NulFree(dir)
    requires dir != "" && dir[0] == '/' && dir[|dir| - 1] != '/'
    requires EntryName(x) && EntryName(y) && x < y && Leaks.TwoDescriptors(w, dir, y, 0, 1)
    ensures var r := RegisterRoot(m, dir, [Child(dir, x)], w);
      && r.ok && r.unwatchable == [Child(dir, x)]
      && r.monitor.inotify.out == [] && LivePaths(r.monitor.inotify) == {dir}
  {
    PrefixSiblingIsCrossed(m.inotify, dir, x, y, w);
    ScanOneMount(Child(dir, x), dir);
  }

  lemma ScanOneMount(mount: string, root: string)
    requires IsParentPath(root, mount) && !IsParentPath(mount, root)
    ensures ScanMounts([mount], root) == Scan(false, [mount], [mount])
  {
    assert ScanMounts([mount][1..], root) == Scan(false, [], []);
  }

  lemma UpdateOneRoot(m: Monitor, root: string, mounts: seq<string>, ws: nat -> World)
    requires Valid(m.inotify) && m.roots == [] && NulFree(root) && root != "/"
    requires RegisterRoot(m, root, mounts, ws(0)).ok
    ensures var r := RegisterRoot(m, root, mounts, ws(0));
      UpdateRoots(m, [root], Some(mounts), ws) ==
        (r.monitor.(inotify := Emit(r.monitor.inotify, [Unwatchable(r.unwatchable)])), true)
  {
    RegisterOneRoot(m, root, mounts, ws);
  }

  lemma RegisterOneRoot(m: Monitor, root: string, mounts: seq<string>, ws: nat -> World)
    requires Valid(m.inotify) && NulFree(root) && RegisterRoot(m, root, mounts, ws(0)).ok
    ensures Register(m, [root], mounts, [], ws, 0) == RegisterRoot(m, root, mounts, ws(0))
  {
    var r := RegisterRoot(m, root, mounts, ws(0));
    assert [] + r.unwatchable == r.unwatchable;
    assert Register(r.monitor, [root], mounts, r.unwatchable, ws, 1) == Registered(r.monitor, r.unwatchable, true);
  }

  lemma PrefixSiblingIsWanted(w: World, dir: string, x: string, y: string)
    requires Leaks.TwoDescriptors(w, dir, y, 0, 1) && EntryName(x) && EntryName(y) && x < y
    ensures Wanted(w, [Child(dir, x)], dir, Child(dir, y))
  {
    var e, kid := Entry(y, DtDir), Child(dir, y);
    assert e in w.opendir(dir).entries && Followed(dir, e, w);
    assert Leads(w, [], kid, []) && [y][1..] == [];
    assert Leads(w, [], dir, [y]) && PathOf(dir, [y]) == PathOf(kid, []) == kid;
    assert Child(dir, x)[|dir| + 1..] == x && TrimSlash(Child(dir, x)) == Child(dir, x);
    assert kid[|Child(dir, x)|] == y[|x|];
  }

  lemma PrefixSiblingIsCrossed(s: Inotify, dir: string, x: string, y: string, w: World)
    requires 0 < s.capacity && s == Start(s.capacity).inotify && NulFree(dir) && EntryName(x) && EntryName(y) && x < y
    requires Leaks.TwoDescriptors(w, dir, y, 0, 1)
    ensures var (t, id) := WalkTree(s, dir, None, true, [Child(dir, x)], w);
      id == 0 && t.out == [] && LivePaths(t) == {dir}
  {
    var mount, kid := Child(dir, x), Child(dir, y);
    var t := AddWatch(s, dir, None, w).0;
    InsertGrows(s, 0, dir, None);
    assert [mount][0] <= kid && Crosses(kid, [mount]) && !Crosses(dir, [mount]);
    assert WalkTree(t, kid, TableGet(t, 0), true, [mount], w) == (t, ERR_IGNORE);
    var entries := [Entry(y, DtDir)];
    assert Followed(dir, entries[0], w) && entries[0] in entries && entries[1..] == [];
    assert WalkEntries(t, dir, 0, [], [mount], w) == (t, 0);
    assert WalkEntries(t, dir, 0, entries, [mount], w) == (t, 0);
  }

  // ---------- events and restored roots: no mount list ----------

  /** An event about a new directory at, above or below a mount. */
  ghost predicate EventExposes(s: Inotify, ev: Event, mounts: seq<string>)
    requires Valid(s)
  {
    && TableGet(s, ev.wd).Some? && ev.isDir && (InCreate in ev.mask || InMovedTo in ev.mask)
    && Exposed(s, EventPath(s, TableGet(s, ev.wd).value, ev.name), true, [], mounts)
  }

  /** Nodes only go. */
  ghost predicate Shrunk(s: Inotify, t: Inotify) {
    forall p | p in t.nodes :: p in s.nodes && t.nodes[p].path == s.nodes[p].path
  }

  lemma {:induction false} CheckRootRemovalShrunk(m: Monitor, path: string, i: nat)
    requires Valid(m.inotify) && i <= |m.roots|
    ensures Shrunk(m.inotify, CheckRootRemoval(m, path, i).inotify)
    decreases |m.roots| - i
  {
    if i < |m.roots| {
      if RootIs(m.roots[i], path) {
        RemoveAges(m.inotify, m.roots[i].id);
        CheckRootRemovalShrunk(RootRemoved(m, i, path), path, i + 1);
      } else {
        CheckRootRemovalShrunk(m, path, i + 1);
      }
    }
  }

  lemma CallbackShrunk(m: Monitor, path: string, mask: set<Bit>)
    requires Valid(m.inotify)
    ensures Shrunk(m.inotify, Callback(m, path, mask).inotify)
  {
    CheckRootRemovalShrunk(m.(inotify := Emit(m.inotify, Reports(path, mask))), path, 0);
  }

  lemma DropKidShrunk(s: Inotify, p: Ptr, path: string)
    requires Valid(s) && p in s.nodes
    ensures Shrunk(s, DropKid(s, p, path))
  {
    KidsLive(s, p);
    var i := FirstKid(s, s.nodes[p].kids, path, 0);
    if i < |s.nodes[p].kids| { DropValid(s, s.nodes[p].kids[i].value); }
  }

  lemma QuietEventShrinks(m: Monitor, ev: Event, w: World)
    requires Valid(m.inotify) && KernelEvent(ev)
    requires TableGet(m.inotify, ev.wd) == None || !ev.isDir || !(InCreate in ev.mask || InMovedTo in ev.mask)
    ensures Shrunk(m.inotify, ProcessEvent(m, ev, w).0.inotify)
  {
    if TableGet(m.inotify, ev.wd).Some? {
      var p := TableGet(m.inotify, ev.wd).value;
      var path := EventPath(m.inotify, p, ev.name);
      var t := Callback(m, path, ev.mask);
      CallbackShrunk(m, path, ev.mask);
      if InDelete in ev.mask || InMovedFrom in ev.mask {
        CallbackFrame(m, path, ev.mask);
        DropKidShrunk(t.inotify, p, path);
      }
    }
  }

  lemma NewDirectoryWalks(m: Monitor, ev: Event, p: Ptr, mounts: seq<string>, w: World)
    requires Valid(m.inotify) && KernelEvent(ev) && Outside(m.inotify, mounts)
    requires TableGet(m.inotify, ev.wd) == Some(p) && ev.isDir && (InCreate in ev.mask || InMovedTo in ev.mask)
    ensures var path := EventPath(m.inotify, p, ev.name);
      var s := Callback(m, path, ev.mask).inotify;
      && NulFree(path) && CanHold(s, Some(p), path) && Outside(s, mounts)
      && s == m.inotify.(out := s.out)
      && ProcessEvent(m, ev, w).0.inotify == WalkTree(s, path, Some(p), true, [], w).0
  {
    var path := EventPath(m.inotify, p, ev.name);
    assert NodeOk(m.inotify, p);
    CallbackFrame(m, path, ev.mask);
    ChildIsChildOf(m.inotify.nodes[p].path, ev.name);
  }

  /** Any event: over everything the kernel may answer, mounts stay unwatched if and only if it is not about a
      new directory at, above or below one. */
  lemma EventStaysOutsideIff(m: Monitor, ev: Event, mounts: seq<string>)
    requires Valid(m.inotify) && KernelEvent(ev) && Outside(m.inotify, mounts)
    ensures (forall w: World :: Outside(ProcessEvent(m, ev, w).0.inotify, mounts)) <==>
      !EventExposes(m.inotify, ev, mounts)
  {
    if TableGet(m.inotify, ev.wd).Some? && ev.isDir && (InCreate in ev.mask || InMovedTo in ev.mask) {
      var p := TableGet(m.inotify, ev.wd).value;
      var path := EventPath(m.inotify, p, ev.name);
      var s := Callback(m, path, ev.mask).inotify;
      NewDirectoryWalks(m, ev, p, mounts, BareWorld());
      WalkStaysOutsideIff(s, path, Some(p), true, [], mounts);
      SameExposure(m.inotify, s, path, mounts);
      if EventExposes(m.inotify, ev, mounts) {
        var w: World :| !Outside(WalkTree(s, path, Some(p), true, [], w).0, mounts);
        NewDirectoryWalks(m, ev, p, mounts, w);
      } else {
        forall w: World
          ensures Outside(ProcessEvent(m, ev, w).0.inotify, mounts)
        {
          NewDirectoryWalks(m, ev, p, mounts, w);
        }
      }
    } else {
      forall w: World ensures Outside(ProcessEvent(m, ev, w).0.inotify, mounts) { QuietEventShrinks(m, ev, w); }
    }
  }

  lemma SameExposure(s: Inotify, t: Inotify, path: string, mounts: seq<string>)
    requires Shape(s) && t == s.(out := t.out)
    ensures Exposed(s, path, true, [], mounts) <==> Exposed(t, path, true, [], mounts)
  {
    forall mount, names
      ensures ExposedAlong(s, path, true, [], mount, names) <==> ExposedAlong(t, path, true, [], mount, names)
    {
      assert Missing(s, Dirs(path, names)) == Missing(t, Dirs(path, names));
      assert FreeSlots(s) == FreeSlots(t);
    }
  }

  /** So for re-attaching a root: no scan and no mount list keep the walk away from mounts. */
  lemma RestoredRootStaysOutsideIff(m: Monitor, i: nat, mounts: seq<string>)
    requires Valid(m.inotify) && i < |m.roots| && NulFree(m.roots[i].path) && Outside(m.inotify, mounts)
    ensures (forall w: World :: Outside(RootRestored(m, i, w).inotify, mounts)) <==>
      !RootExposed(m.inotify, m.roots[i].path, [], mounts)
  {
    WatchStaysOutsideIff(m.inotify, m.roots[i].path, [], mounts);
    forall w: World
      ensures Outside(RootRestored(m, i, w).inotify, mounts) <==>
        Outside(Watch(m.inotify, m.roots[i].path, [], w).0, mounts)
    {
      var t := Watch(m.inotify, m.roots[i].path, [], w).0;
      assert RootRestored(m, i, w).inotify.nodes == t.nodes;
    }
  }
}
