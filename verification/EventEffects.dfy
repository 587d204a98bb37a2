/** What an event does to the forest, and when it ends the program. */
module EventEffects {
  import opened Options
  import opened Posix
  import opened Paths
  import opened Watches
  import opened Walk
  import opened MainLoop
  import opened Runs
  import opened Coverage
  import opened Failures
  import opened DirectoryDeletion

  /** The event is about a directory that appeared in, or went from, the watched directory of node `p`. */
  ghost predicate Appears(m: Monitor, ev: Event, p: Ptr)
    requires Valid(m.inotify)
  {
    TableGet(m.inotify, ev.wd) == Some(p) && ev.isDir && (ev.mask == {InCreate} || ev.mask == {InMovedTo})
  }

  ghost predicate Goes(m: Monitor, ev: Event, p: Ptr)
    requires Valid(m.inotify)
  {
    TableGet(m.inotify, ev.wd) == Some(p) && ev.isDir && (ev.mask == {InDelete} || ev.mask == {InMovedFrom})
  }

  /** The forests `s` and `t` are the same, up to the output. */
  ghost predicate SameForest(s: Inotify, t: Inotify) {
    t == s.(out := t.out)
  }

  /** The state in which the forest is changed, after the callback, and the path of the directory. */
  lemma AfterCallback(m: Monitor, ev: Event, p: Ptr, w: World)
    requires Valid(m.inotify) && KernelEvent(ev) && (Appears(m, ev, p) || Goes(m, ev, p))
    ensures var path := Child(m.inotify.nodes[p].path, ev.name);
      var s := Callback(m, path, ev.mask).inotify;
      && SameForest(m.inotify, s) && p in s.nodes && NulFree(path)
      && ProcessEvent(m, ev, w) ==
           (Callback(m, path, ev.mask).(inotify := UpdatedTree(s, p, ev.mask, path, w).0),
             UpdatedTree(s, p, ev.mask, path, w).1)
  {
    assert NodeOk(m.inotify, p);
    CallbackFrame(m, Child(m.inotify.nodes[p].path, ev.name), ev.mask);
  }

  /** When a directory goes, exactly the nodes of the kids with its path go, if and only if no other kid can be mistaken
      for it; the program goes on. */
  lemma GoneDirectoryIff(m: Monitor, ev: Event, p: Ptr, w: World) returns (s: Inotify)
    requires Valid(m.inotify) && KernelEvent(ev) && Goes(m, ev, p)
    ensures SameForest(m.inotify, s) && Valid(s) && p in s.nodes
    ensures var path := Child(m.inotify.nodes[p].path, ev.name);
      var (t, ok) := ProcessEvent(m, ev, w);
      && ok && t.roots == m.roots
      && ((forall q :: q in t.inotify.nodes <==> q in s.nodes && !Doomed(s, p, path, q)) <==> Unambiguous(s, p, path))
  {
    var path := Child(m.inotify.nodes[p].path, ev.name);
    AfterCallback(m, ev, p, w);
    CallbackFrame(m, path, ev.mask);
    s := Callback(m, path, ev.mask).inotify;
    DeletionIsExactIff(s, p, path);
  }

  lemma SameConsistent(s: Inotify, t: Inotify, w: World, dom: iset<string>)
    requires Valid(s) && Valid(t) && SameForest(s, t) && Consistent(s, w, dom)
    ensures Consistent(t, w, dom)
  {
    forall p | p in dom ensures KnownAt(t, w, p) { assert KnownAt(s, w, p); }
  }

  /** When a directory appears, the watched paths grow by exactly those reachable from it, unless the walk comes to an
      obstacle; and the program ends if and only if the first obstacle is a directory that may not be watched for
      other reasons than EACCES, ENOENT and the limit. */
  lemma NewDirectoryIsCovered(m: Monitor, ev: Event, p: Ptr, w: World)
    requires Valid(m.inotify) && KernelEvent(ev) && Appears(m, ev, p)
    requires Consistent(m.inotify, w, ReachableFrom(w, [], Child(m.inotify.nodes[p].path, ev.name)))
    ensures var path := Child(m.inotify.nodes[p].path, ev.name);
      var (t, ok) := ProcessEvent(m, ev, w);
      var obstacles := Obstacles(w, [], path);
      && (obstacles == [] ==>
            forall x :: x in LivePaths(t.inotify) <==> x in LivePaths(m.inotify) || Reachable(w, [], path, x))
      && (ok <==> obstacles == [] || EndCode(w, obstacles[0]) != ERR_ABORT)
      && t.roots == m.roots
  {
    var path := Child(m.inotify.nodes[p].path, ev.name);
    AfterCallback(m, ev, p, w);
    CallbackFrame(m, path, ev.mask);
    var s := Callback(m, path, ev.mask).inotify;
    SameConsistent(m.inotify, s, w, ReachableFrom(w, [], path));
    assert LivePaths(s) == LivePaths(m.inotify);
    WalkFailsHardIff(s, path, Some(p), [], w);
    if Obstacles(w, [], path) == [] {
      NoObstacle(s, path, Some(p), w);
      WalkCoversReachable(s, path, Some(p), [], w);
    }
  }

  lemma NoObstacle(s: Inotify, path: string, parent: Option<Ptr>, w: World)
    requires Valid(s) && Live(s, parent) && NulFree(path) && Consistent(s, w, ReachableFrom(w, [], path))
    requires Obstacles(w, [], path) == []
    ensures !Hard(WalkTree(s, path, parent, true, [], w).1)
  {
    WalkFailsHardIff(s, path, parent, [], w);
  }

  /** All other events leave the forest alone, except for the roots gone from their path, and never end the program. */
  lemma OtherEventsKeepForest(m: Monitor, ev: Event, w: World)
    requires Valid(m.inotify) && KernelEvent(ev)
    requires forall p :: !Appears(m, ev, p) && !Goes(m, ev, p)
    ensures var (t, ok) := ProcessEvent(m, ev, w);
      && ok
      && (InDeleteSelf !in ev.mask && InMoveSelf !in ev.mask ==> SameForest(m.inotify, t.inotify) && t.roots == m.roots)
  {
    if TableGet(m.inotify, ev.wd).Some? {
      var p := TableGet(m.inotify, ev.wd).value;
      var path := EventPath(m.inotify, p, ev.name);
      assert !Appears(m, ev, p) && !Goes(m, ev, p);
      OneBit(ev, InCreate);
      OneBit(ev, InMovedTo);
      OneBit(ev, InDelete);
      OneBit(ev, InMovedFrom);
      assert NodeOk(m.inotify, p);
      if InDeleteSelf !in ev.mask && InMoveSelf !in ev.mask { CallbackFrame(m, path, ev.mask); }
    }
  }

  lemma OneBit(ev: Event, b: Bit)
    requires KernelEvent(ev)
    ensures b in ev.mask <==> ev.mask == {b}
  {
  }
}
