/** When descriptors leak: those that the kernel issues and the program refuses stay with the kernel. */
module Leaks {
  import opened Options
  import opened Posix
  import opened Paths
  import opened Collections
  import opened Watches
  import opened Walk
  import opened WalkGrowth
  import opened MainLoop
  import opened Runs
  import opened Descent

  // ---------- no collision, no leak ----------

  /** No two descriptors share a slot. */
  ghost predicate Apart(ds: set<nat>, capacity: nat)
    requires 0 < capacity
  {
    forall a, b | a in ds && b in ds && a != b :: Slot(a, capacity) != Slot(b, capacity)
  }

  /** No stray, and all nodes have descriptors from `ds`. */
  ghost predicate Tame(s: Inotify, ds: set<nat>) {
    && 0 < s.capacity && Apart(ds, s.capacity)
    && s.strays == {}
    && forall p | p in s.nodes :: s.nodes[p].wd in ds
  }

  lemma RemoveStaysTame(s: Inotify, wd: int, ds: set<nat>)
    requires Valid(s) && Tame(s, ds)
    ensures Tame(Remove(s, wd), ds)
  {
    RemoveAges(s, wd);
  }

  lemma AddWatchStaysTame(s: Inotify, path: string, parent: Option<Ptr>, w: World, ds: set<nat>)
    requires Valid(s) && Live(s, parent) && NulFree(path) && Tame(s, ds) && Issues(w, ds)
    ensures Tame(AddWatch(s, path, parent, w).0, ds)
  {
    if w.addWatch(path).Descriptor? {
      var wd := w.addWatch(path).wd;
      if TableGet(s, wd) == None { InsertGrows(s, wd, path, parent); }
    }
  }

  lemma {:induction false} WalkTreeStaysTame(s: Inotify, path: string, parent: Option<Ptr>, recursive: bool,
          mounts: seq<string>, w: World, ds: set<nat>)
    requires Valid(s) && Live(s, parent) && NulFree(path) && Tame(s, ds) && Issues(w, ds)
    ensures Tame(WalkTree(s, path, parent, recursive, mounts, w).0, ds)
    decreases if |path| < PATH_MAX then PATH_MAX - |path| else 0, 1, 0
  {
    if !Crosses(path, mounts) && !(recursive && w.opendir(path).NotOpened?) {
      var (t, id) := AddWatch(s, path, parent, w);
      AddWatchStaysTame(s, path, parent, w, ds);
      if recursive && 0 <= id { WalkEntriesStayTame(t, path, id, w.opendir(path).entries, mounts, w, ds); }
    }
  }

  lemma {:induction false} WalkEntriesStayTame(s: Inotify, path: string, id: int, entries: seq<Entry>,
          mounts: seq<string>, w: World, ds: set<nat>)
    requires Valid(s) && NulFree(path) && |path| < PATH_MAX && Tame(s, ds) && Issues(w, ds)
    requires forall e | e in entries :: FileName(e.name)
    ensures Tame(WalkEntries(s, path, id, entries, mounts, w).0, ds)
    decreases PATH_MAX - |path|, 0, |entries|
  {
    if entries == [] {
    } else if !Followed(path, entries[0], w) {
      WalkEntriesStayTame(s, path, id, entries[1..], mounts, w, ds);
    } else {
      assert entries[0] in entries;
      var child := Child(path, entries[0].name);
      var (t, sub) := WalkTree(s, child, TableGet(s, id), true, mounts, w);
      WalkTreeStaysTame(s, child, TableGet(s, id), true, mounts, w, ds);
      RemoveStaysTame(t, id, ds);
      if !Hard(sub) { WalkEntriesStayTame(t, path, id, entries[1..], mounts, w, ds); }
    }
  }

  lemma WatchStaysTame(s: Inotify, root: string, mounts: seq<string>, w: World, ds: set<nat>)
    requires Valid(s) && NulFree(root) && Tame(s, ds) && Issues(w, ds)
    ensures Tame(Watch(s, root, mounts, w).0, ds)
  {
    var path := Unflatten(root);
    if w.stat(path).Found? && w.stat(path).kind != SpecialFile {
      WalkTreeStaysTame(s, TrimSlash(path), None, path == root && w.stat(path).kind == Directory, mounts, w, ds);
    }
  }

  lemma {:induction false} UnregisterStaysTame(m: Monitor, ds: set<nat>)
    requires Valid(m.inotify) && Tame(m.inotify, ds)
    ensures Tame(Unregister(m).inotify, ds)
    decreases |m.roots|
  {
    if m.roots != [] {
      var k := |m.roots| - 1;
      RemoveStaysTame(m.inotify, m.roots[k].id, ds);
      UnregisterStaysTame(m.(inotify := Remove(m.inotify, m.roots[k].id), roots := m.roots[..k]), ds);
    }
  }

  lemma RegisterRootStaysTame(m: Monitor, root: string, mounts: seq<string>, w: World, ds: set<nat>)
    requires Valid(m.inotify) && NulFree(root) && Tame(m.inotify, ds) && Issues(w, ds)
    ensures Tame(RegisterRoot(m, root, mounts, w).monitor.inotify, ds)
  {
    WatchStaysTame(m.inotify, root, ScanMounts(mounts, Unflatten(root)).inner, w, ds);
  }

  lemma {:induction false} RegisterStaysTame(m: Monitor, newRoots: seq<string>, mounts: seq<string>,
          unwatchable: seq<string>, ws: nat -> World, i: nat, ds: set<nat>)
    requires Valid(m.inotify) && i <= |newRoots| && AllNulFree(newRoots) && Tame(m.inotify, ds)
      && forall j: nat :: Issues(ws(j), ds)
    ensures Tame(Register(m, newRoots, mounts, unwatchable, ws, i).monitor.inotify, ds)
    decreases |newRoots| - i
  {
    if i < |newRoots| {
      assert Issues(ws(i), ds);
      RegisterRootStaysTame(m, newRoots[i], mounts, ws(i), ds);
      var r := RegisterRoot(m, newRoots[i], mounts, ws(i));
      if r.ok { RegisterStaysTame(r.monitor, newRoots, mounts, unwatchable + r.unwatchable, ws, i + 1, ds); }
    }
  }

  lemma {:induction false} CheckRootRemovalStaysTame(m: Monitor, path: string, i: nat, ds: set<nat>)
    requires Valid(m.inotify) && i <= |m.roots| && Tame(m.inotify, ds)
    ensures Tame(CheckRootRemoval(m, path, i).inotify, ds)
    decreases |m.roots| - i
  {
    if i < |m.roots| {
      if RootIs(m.roots[i], path) {
        RemoveStaysTame(m.inotify, m.roots[i].id, ds);
        CheckRootRemovalStaysTame(RootRemoved(m, i, path), path, i + 1, ds);
      } else {
        CheckRootRemovalStaysTame(m, path, i + 1, ds);
      }
    }
  }

  lemma {:induction false} CheckMissingRootsStaysTame(m: Monitor, seen: nat -> bool, ws: nat -> World, i: nat,
          ds: set<nat>)
    requires Valid(m.inotify) && i <= |m.roots| && RootsOk(m.roots) && Tame(m.inotify, ds)
      && forall j: nat :: Issues(ws(j), ds)
    ensures Tame(CheckMissingRoots(m, seen, ws, i).inotify, ds)
    decreases |m.roots| - i
  {
    if i < |m.roots| {
      if 0 <= m.roots[i].id || !seen(i) {
        CheckMissingRootsStaysTame(m, seen, ws, i + 1, ds);
      } else {
        assert Issues(ws(i), ds);
        WatchStaysTame(m.inotify, m.roots[i].path, [], ws(i), ds);
        CheckMissingRootsStaysTame(RootRestored(m, i, ws(i)), seen, ws, i + 1, ds);
      }
    }
  }

  lemma DropKidStaysTame(s: Inotify, p: Ptr, path: string, ds: set<nat>)
    requires Valid(s) && p in s.nodes && Tame(s, ds)
    ensures Tame(DropKid(s, p, path), ds)
  {
    KidsLive(s, p);
    var i := FirstKid(s, s.nodes[p].kids, path, 0);
    if i < |s.nodes[p].kids| { DropValid(s, s.nodes[p].kids[i].value); }
  }

  lemma ProcessEventStaysTame(m: Monitor, ev: Event, w: World, ds: set<nat>)
    requires Valid(m.inotify) && KernelEvent(ev) && Tame(m.inotify, ds) && Issues(w, ds)
    ensures Tame(ProcessEvent(m, ev, w).0.inotify, ds)
  {
    if TableGet(m.inotify, ev.wd).Some? {
      var p := TableGet(m.inotify, ev.wd).value;
      var path := EventPath(m.inotify, p, ev.name);
      assert NodeOk(m.inotify, p);
      CheckRootRemovalStaysTame(m.(inotify := Emit(m.inotify, Reports(path, ev.mask))), path, 0, ds);
      var t := Callback(m, path, ev.mask);
      if ChangesTree(ev.mask) {
        CallbackFrame(m, path, ev.mask);
        if InCreate in ev.mask || InMovedTo in ev.mask {
          WalkTreeStaysTame(t.inotify, path, Some(p), true, [], w, ds);
        } else {
          DropKidStaysTame(t.inotify, p, path, ds);
        }
      }
    }
  }

  /** All descriptors that the kernel answers in this turn are in `ds`. */
  ghost predicate StepIssues(step: Step, ds: set<nat>) {
    match step
    case RootsCommand(_, _, ws) => forall i: nat :: Issues(ws(i), ds)
    case InotifyInput(_, w) => Issues(w, ds)
    case Timeout(_, ws) => forall i: nat :: Issues(ws(i), ds)
  }

  lemma TurnStaysTame(m: Monitor, step: Step, ds: set<nat>)
    requires Inv(m) && StepOk(step) && StepIssues(step, ds) && Tame(m.inotify, ds)
    ensures Tame(Turn(m, step).0.inotify, ds)
  {
    match step
    case RootsCommand(newRoots, mounts, ws) =>
      UnregisterStaysTame(m, ds);
      if mounts.Some? { RegisterStaysTame(Unregister(m), newRoots, mounts.value, [], ws, 0, ds); }
    case InotifyInput(event, w) => ProcessEventStaysTame(m, event, w, ds);
    case Timeout(seen, ws) => CheckMissingRootsStaysTame(m, seen, ws, 0, ds);
  }

  lemma {:induction false} RunStaysTame(m: Monitor, steps: seq<Step>, ds: set<nat>)
    requires Inv(m) && Tame(m.inotify, ds) && forall step | step in steps :: StepOk(step) && StepIssues(step, ds)
    ensures Tame(Run(m, steps).inotify, ds)
    decreases |steps|
  {
    if steps != [] {
      assert steps[0] in steps;
      TurnStaysTame(m, steps[0], ds);
      if Turn(m, steps[0]).1 { RunStaysTame(Turn(m, steps[0]).0, steps[1..], ds); }
    }
  }

  /** If the descriptors issued in a run are pairwise distinct modulo the capacity, each was handed back after
      unregistering, as often as it was issued. */
  lemma NothingLeaksWhenApart(capacity: nat, steps: seq<Step>, ds: set<nat>)
    requires 0 < capacity && Apart(ds, capacity)
    requires forall step | step in steps :: StepOk(step) && StepIssues(step, ds)
    ensures var s := Unregister(Run(Start(capacity), steps)).inotify; s.issued == s.released
  {
    RunStaysTame(Start(capacity), steps, ds);
    ShutdownIsClean(capacity, steps);
  }

  // ---------- a collision leaks ----------

  /** In this world `dir` contains an empty directory `x`; their descriptors are `a` and `b`. */
  ghost predicate TwoDescriptors(w: World, dir: string, x: string, a: nat, b: nat) {
    && w.stat(dir) == Found(Directory)
    && w.opendir(dir) == Opened([Entry(x, DtDir)]) && w.addWatch(dir) == Descriptor(a)
    && w.opendir(Child(dir, x)) == Opened([]) && w.addWatch(Child(dir, x)) == Descriptor(b)
    && Issues(w, {a, b})
  }

  lemma TwoDescriptorsExist(dir: string, x: string, a: nat, b: nat) returns (w: World)
    requires dir != "" && |Child(dir, x)| < PATH_MAX && FileName(x)
    ensures TwoDescriptors(w, dir, x, a, b)
  {
    var kid := Child(dir, x);
    w := Answers(
      p => if p == dir then Opened([Entry(x, DtDir)]) else if p == kid then Opened([]) else NotOpened(ENOENT),
      p => if p == dir then Descriptor(a) else if p == kid then Descriptor(b) else Refused(ENOENT),
      p => if p == dir || p == kid then Found(Directory) else NotFound(ENOENT),
      _ => None);
  }

  /** Two descriptors that collide. */
  ghost predicate Collide(a: nat, b: nat, capacity: nat) {
    0 < capacity && a != b && Slot(a, capacity) == Slot(b, capacity)
  }

  lemma KidRefused(s: Inotify, dir: string, x: string, a: nat, b: nat, w: World)
    requires Collide(a, b, s.capacity) && s == Start(s.capacity).inotify
    requires NulFree(dir) && EntryName(x) && TwoDescriptors(w, dir, x, a, b)
    ensures var (t, id) := AddWatch(s, dir, None, w);
      && id == a && TableGet(t, a) == Some(0) && !Holds(t, b)
      && WalkTree(t, Child(dir, x), Some(0), true, [], w) == (Stray(t, b), ERR_ABORT)
  {
    InsertGrows(s, a, dir, None);
  }

  lemma WalkLeavesStray(s: Inotify, dir: string, x: string, a: nat, b: nat, w: World)
    requires Collide(a, b, s.capacity) && s == Start(s.capacity).inotify
    requires NulFree(dir) && EntryName(x) && TwoDescriptors(w, dir, x, a, b)
    ensures var (t, id) := WalkTree(s, dir, None, true, [], w);
      id == ERR_ABORT && t.strays == {b}
  {
    KidRefused(s, dir, x, a, b, w);
    var t := AddWatch(s, dir, None, w).0;
    assert Followed(dir, Entry(x, DtDir), w);
    assert Entry(x, DtDir) in [Entry(x, DtDir)];
    RemoveAges(Stray(t, b), a);
    assert Remove(Stray(t, b), a).strays == {b};
  }

  /** For any two descriptors that collide and any root, a run of one command can leave one of them behind. */
  lemma CollisionLeaks(capacity: nat, dir: string, x: string, a: nat, b: nat) returns (steps: seq<Step>)
    requires Collide(a, b, capacity)
    requires NulFree(dir) && dir != "" && dir[0] == '/' && dir[|dir| - 1] != '/'
    requires EntryName(x) && |Child(dir, x)| < PATH_MAX
    ensures |steps| == 1 && StepOk(steps[0]) && StepIssues(steps[0], {a, b})
    ensures var s := Unregister(Run(Start(capacity), steps)).inotify;
      s.issued[b] == s.released[b] + 1
  {
    var w := TwoDescriptorsExist(dir, x, a, b);
    var ws: nat -> World := _ => w;
    steps := [RootsCommand([dir], Some([]), ws)];
    WalkLeavesStray(Start(capacity).inotify, dir, x, a, b, w);
    RegisterAborts(Start(capacity), dir, ws);
    OneTurn(Start(capacity), steps);
    StrayIsHeld(Run(Start(capacity), steps), b);
  }

  /** Every descriptor issued was handed back. */
  ghost predicate AllReleased(capacity: nat, steps: seq<Step>)
    requires 0 < capacity && forall step | step in steps :: StepOk(step)
  {
    var s := Unregister(Run(Start(capacity), steps)).inotify;
    s.issued == s.released
  }

  /** If the kernel issues descriptors from `ds` only, every run ends without a leak if and only if no two of them
      share a slot. */
  lemma NothingLeaksIff(capacity: nat, ds: set<nat>)
    requires 0 < capacity
    ensures Apart(ds, capacity) <==>
      forall steps | forall step | step in steps :: StepOk(step) && StepIssues(step, ds) :: AllReleased(capacity, steps)
  {
    if Apart(ds, capacity) {
      forall steps | forall step | step in steps :: StepOk(step) && StepIssues(step, ds)
        ensures AllReleased(capacity, steps)
      {
        NothingLeaksWhenApart(capacity, steps, ds);
      }
    } else {
      var a, b :| a in ds && b in ds && a != b && Slot(a, capacity) == Slot(b, capacity);
      var steps := SomeRunLeaks(capacity, ds, a, b);
    }
  }

  lemma SomeRunLeaks(capacity: nat, ds: set<nat>, a: nat, b: nat) returns (steps: seq<Step>)
    requires Collide(a, b, capacity) && a in ds && b in ds
    ensures forall step | step in steps :: StepOk(step) && StepIssues(step, ds)
    ensures !AllReleased(capacity, steps)
  {
    steps := CollisionLeaks(capacity, "/a", "b", a, b);
    IssuesMore(steps[0], {a, b}, ds);
    assert steps == [steps[0]];
  }

  lemma IssuesMore(step: Step, some: set<nat>, all: set<nat>)
    requires StepIssues(step, some) && some <= all
    ensures StepIssues(step, all)
  {
    match step
    case RootsCommand(_, _, ws) => forall i: nat ensures Issues(ws(i), all) { assert Issues(ws(i), some); }
    case InotifyInput(_, _) =>
    case Timeout(_, ws) => forall i: nat ensures Issues(ws(i), all) { assert Issues(ws(i), some); }
  }

  lemma StrayIsHeld(m: Monitor, wd: nat)
    requires Inv(m) && wd in m.inotify.strays
    ensures var s := Unregister(m).inotify; s.issued[wd] == s.released[wd] + 1
  {
    UnregisterEmpties(m);
  }

  lemma RegisterAborts(m: Monitor, dir: string, ws: nat -> World)
    requires Valid(m.inotify) && m.roots == [] && NulFree(dir) && dir != "" && dir[0] == '/' && dir != "/"
    requires Watch(m.inotify, dir, [], ws(0)).1 == ERR_ABORT
    ensures UpdateRoots(m, [dir], Some([]), ws).0.inotify == Watch(m.inotify, dir, [], ws(0)).0
  {
    assert ScanMounts([], dir) == Scan(false, [], []);
    assert Register(m, [dir], [], [], ws, 0).monitor == RegisterRoot(m, dir, [], ws(0)).monitor;
  }
}
