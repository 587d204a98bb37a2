/** A walk that succeeds watches exactly the directories reachable from its root. */
module Coverage {
  import opened Options
  import opened Posix
  import opened Paths
  import opened Collections
  import opened Watches
  import opened Walk
  import opened WalkGrowth

  // ---------- the reference: reachability in the directory tree ----------

  ghost predicate Admitted(w: World, mounts: seq<string>, dir: string) {
    !Crosses(dir, mounts) && w.opendir(dir).Opened? && w.addWatch(dir).Descriptor?
  }

  ghost predicate Lists(w: World, dir: string, name: string)
    requires w.opendir(dir).Opened?
  {
    exists e :: e in w.opendir(dir).entries && e.name == name && Followed(dir, e, w)
  }

  function PathOf(dir: string, names: seq<string>): string
    decreases |names|
  {
    if names == [] then dir else PathOf(Child(dir, names[0]), names[1..])
  }

  /** `names` leads down from `dir`, every directory on the way being admitted and listed by the one above. */
  ghost predicate Leads(w: World, mounts: seq<string>, dir: string, names: seq<string>)
    decreases |names|
  {
    && Admitted(w, mounts, dir)
    && (names != [] ==> Lists(w, dir, names[0]) && Leads(w, mounts, Child(dir, names[0]), names[1..]))
  }

  ghost predicate Reachable(w: World, mounts: seq<string>, dir: string, path: string) {
    exists names :: Leads(w, mounts, dir, names) && PathOf(dir, names) == path
  }

  /** Reachable from `dir` through one of `entries`. */
  ghost predicate ReachableBy(w: World, mounts: seq<string>, dir: string, entries: seq<Entry>, path: string) {
    exists e :: e in entries && Followed(dir, e, w) && Reachable(w, mounts, Child(dir, e.name), path)
  }

  // ---------- a tree: one directory, one descriptor ----------

  /** Different paths of `dom` have descriptors in different slots. Outside `dom` one directory may have
      many paths, as it has with doubled slashes or links. */
  ghost predicate Tree(w: World, dom: iset<string>, capacity: nat)
    requires 0 < capacity
  {
    forall p, q | p in dom && q in dom && p != q && w.addWatch(p).Descriptor? && w.addWatch(q).Descriptor? ::
      Slot(w.addWatch(p).wd, capacity) != Slot(w.addWatch(q).wd, capacity)
  }

  ghost predicate KnownAt(s: Inotify, w: World, p: string)
    requires Valid(s)
  {
    w.addWatch(p).Descriptor? && TableGet(s, w.addWatch(p).wd).Some? ==> Watched(s, w.addWatch(p).wd, p)
  }

  /** A descriptor the forest knows already is known for the path of `dom` it is issued for. */
  ghost predicate Consistent(s: Inotify, w: World, dom: iset<string>)
    requires Valid(s)
  {
    Tree(w, dom, s.capacity) && forall p {:trigger KnownAt(s, w, p)} | p in dom :: KnownAt(s, w, p)
  }

  ghost function ReachableFrom(w: World, mounts: seq<string>, dir: string): iset<string> {
    iset p | Reachable(w, mounts, dir, p)
  }

  ghost function LivePaths(s: Inotify): set<string> {
    set q | q in s.nodes :: s.nodes[q].path
  }

  // ---------- proof ----------

  lemma {:induction false} PathOfBelow(dir: string, names: seq<string>)
    ensures IsParentPath(dir, PathOf(dir, names))
    ensures names != [] ==> |dir| < |PathOf(dir, names)|
    decreases |names|
  {
    if names != [] {
      PathOfBelow(Child(dir, names[0]), names[1..]);
      ParentPathTransitive(dir, Child(dir, names[0]), PathOf(dir, names));
    }
  }

  lemma ReachableSplits(w: World, mounts: seq<string>, dir: string, path: string)
    ensures Reachable(w, mounts, dir, path) <==>
      Admitted(w, mounts, dir) && (path == dir || ReachableBy(w, mounts, dir, w.opendir(dir).entries, path))
  {
    if Reachable(w, mounts, dir, path) {
      var names :| Leads(w, mounts, dir, names) && PathOf(dir, names) == path;
      if names != [] {
        var e :| e in w.opendir(dir).entries && e.name == names[0] && Followed(dir, e, w);
        assert Leads(w, mounts, Child(dir, e.name), names[1..]) && PathOf(Child(dir, e.name), names[1..]) == path;
        assert ReachableBy(w, mounts, dir, w.opendir(dir).entries, path);
      }
    }
    if Admitted(w, mounts, dir) {
      if path == dir {
        assert Leads(w, mounts, dir, []) && PathOf(dir, []) == path;
      } else if ReachableBy(w, mounts, dir, w.opendir(dir).entries, path) {
        var e :| e in w.opendir(dir).entries && Followed(dir, e, w) && Reachable(w, mounts, Child(dir, e.name), path);
        var names :| Leads(w, mounts, Child(dir, e.name), names) && PathOf(Child(dir, e.name), names) == path;
        var all := [e.name] + names;
        assert all[1..] == names;
        assert Leads(w, mounts, dir, all) && PathOf(dir, all) == path;
      }
    }
  }

  lemma InsertConsistent(s: Inotify, w: World, dom: iset<string>, path: string, parent: Option<Ptr>)
    requires Valid(s) && Live(s, parent) && NulFree(path) && Consistent(s, w, dom) && path in dom
    requires w.addWatch(path).Descriptor? && TableGet(s, w.addWatch(path).wd) == None
    ensures var t := Insert(s, w.addWatch(path).wd, path, parent);
      && Valid(t) && Consistent(t, w, dom)
      && forall p :: p in LivePaths(t) <==> p in LivePaths(s) || p == path
  {
    var wd := w.addWatch(path).wd;
    InsertValid(s, wd, path, parent);
    InsertGrows(s, wd, path, parent);
    var t := Insert(s, wd, path, parent);
    forall p | p in dom ensures KnownAt(t, w, p) { assert KnownAt(s, w, p); }
    assert forall q | q in s.nodes :: q in t.nodes && t.nodes[q].path == s.nodes[q].path;
    assert s.next in t.nodes && t.nodes[s.next].path == path;
  }

  /** Unless it fails hard, a walk adds to the watched paths exactly those reachable from its root, if no two
      of these share a slot with each other or with a node at another path. */
  lemma WalkCoversReachable(s: Inotify, path: string, parent: Option<Ptr>, mounts: seq<string>, w: World)
    requires Valid(s) && Live(s, parent) && NulFree(path) && Consistent(s, w, ReachableFrom(w, mounts, path))
    requires !Hard(WalkTree(s, path, parent, true, mounts, w).1)
    ensures forall p :: p in LivePaths(WalkTree(s, path, parent, true, mounts, w).0) <==>
      p in LivePaths(s) || Reachable(w, mounts, path, p)
  {
    WalkCovers(s, path, parent, mounts, w, ReachableFrom(w, mounts, path));
  }

  lemma {:induction false} WalkCovers(s: Inotify, path: string, parent: Option<Ptr>, mounts: seq<string>, w: World,
          dom: iset<string>)
    requires Valid(s) && Live(s, parent) && NulFree(path) && Consistent(s, w, dom)
    requires forall p | Reachable(w, mounts, path, p) :: p in dom
    requires !Hard(WalkTree(s, path, parent, true, mounts, w).1)
    ensures var t := WalkTree(s, path, parent, true, mounts, w).0;
      && Consistent(t, w, dom)
      && forall p :: p in LivePaths(t) <==> p in LivePaths(s) || Reachable(w, mounts, path, p)
    decreases if |path| < PATH_MAX then PATH_MAX - |path| else 0, 1, 0
  {
    forall p ensures Reachable(w, mounts, path, p) <==>
      Admitted(w, mounts, path) && (p == path || ReachableBy(w, mounts, path, w.opendir(path).entries, p))
    {
      ReachableSplits(w, mounts, path, p);
    }
    if Admitted(w, mounts, path) {
      assert Reachable(w, mounts, path, path);
      var wd := w.addWatch(path).wd;
      var t := AddWatch(s, path, parent, w).0;
      assert KnownAt(s, w, path);
      if TableGet(s, wd) == None {
        InsertConsistent(s, w, dom, path, parent);
      } else {
        assert path in LivePaths(s);
      }
      EntriesCover(t, path, wd, w.opendir(path).entries, mounts, w, dom);
    }
  }

  lemma {:induction false} EntriesCover(s: Inotify, path: string, id: int, entries: seq<Entry>, mounts: seq<string>,
          w: World, dom: iset<string>)
    requires Valid(s) && NulFree(path) && |path| < PATH_MAX && Consistent(s, w, dom)
    requires forall p | ReachableBy(w, mounts, path, entries, p) :: p in dom
    requires forall e | e in entries :: FileName(e.name)
    requires !Hard(WalkEntries(s, path, id, entries, mounts, w).1)
    ensures var t := WalkEntries(s, path, id, entries, mounts, w).0;
      && Consistent(t, w, dom)
      && forall p :: p in LivePaths(t) <==> p in LivePaths(s) || ReachableBy(w, mounts, path, entries, p)
    decreases PATH_MAX - |path|, 0, |entries|
  {
    if entries == [] {
    } else {
      assert entries == [entries[0]] + entries[1..];
      if !Followed(path, entries[0], w) {
        EntriesCover(s, path, id, entries[1..], mounts, w, dom);
      } else {
        assert entries[0] in entries;
        var child := Child(path, entries[0].name);
        var (t, sub) := WalkTree(s, child, TableGet(s, id), true, mounts, w);
        WalkCovers(s, child, TableGet(s, id), mounts, w, dom);
        EntriesCover(t, path, id, entries[1..], mounts, w, dom);
      }
      forall p ensures ReachableBy(w, mounts, path, entries, p) <==>
        || (Followed(path, entries[0], w) && Reachable(w, mounts, Child(path, entries[0].name), p))
        || ReachableBy(w, mounts, path, entries[1..], p)
      {
      }
    }
  }

  // ---------- the mount check of the walk ----------

  /** A check by string prefix stops a walk at a directory if and only if it stops it there or above. */
  lemma {:induction false} LeadsThroughCheck(w: World, mounts: seq<string>, dir: string, names: seq<string>)
    ensures Leads(w, mounts, dir, names) <==> Leads(w, [], dir, names) && !Crosses(PathOf(dir, names), mounts)
    decreases |names|
  {
    PathOfBelow(dir, names);
    if names != [] { LeadsThroughCheck(w, mounts, Child(dir, names[0]), names[1..]); }
  }

  lemma ReachableThroughCheck(w: World, mounts: seq<string>, dir: string, path: string)
    ensures Reachable(w, mounts, dir, path) <==> Reachable(w, [], dir, path) && !Crosses(path, mounts)
  {
    forall names
      ensures Leads(w, mounts, dir, names) <==> Leads(w, [], dir, names) && !Crosses(PathOf(dir, names), mounts)
    {
      LeadsThroughCheck(w, mounts, dir, names);
    }
    if Reachable(w, [], dir, path) && !Crosses(path, mounts) {
      var names :| Leads(w, [], dir, names) && PathOf(dir, names) == path;
      assert Leads(w, mounts, dir, names);
    }
  }

  /** A directory that a walk of `dir` ought to watch: reachable, and under no mount. */
  ghost predicate Wanted(w: World, mounts: seq<string>, dir: string, path: string) {
    Reachable(w, [], dir, path) && forall j | 0 <= j < |mounts| :: !LiesUnder(mounts[j], path)
  }

  /** A walk that does not fail hard watches every directory that it ought to if and only if no mount is a string
      prefix of one of them not watched before, such as "/a/m" of "/a/mx". */
  lemma WalkWatchesWantedIff(s: Inotify, path: string, parent: Option<Ptr>, mounts: seq<string>, w: World)
    requires Valid(s) && Live(s, parent) && NulFree(path) && Consistent(s, w, ReachableFrom(w, mounts, path))
    requires !Hard(WalkTree(s, path, parent, true, mounts, w).1)
    ensures var t := WalkTree(s, path, parent, true, mounts, w).0;
      (forall p | Wanted(w, mounts, path, p) :: p in LivePaths(t)) <==>
      (forall p | Wanted(w, mounts, path, p) && p !in LivePaths(s) :: !Crosses(p, mounts))
  {
    WalkCoversReachable(s, path, parent, mounts, w);
    forall p ensures Reachable(w, mounts, path, p) <==> Reachable(w, [], path, p) && !Crosses(p, mounts) {
      ReachableThroughCheck(w, mounts, path, p);
    }
  }
}
