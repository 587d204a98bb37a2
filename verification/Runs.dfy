/** Safety over whole runs: what every step of the main loop keeps, and what shutting down leaves. */
module Runs {
  import opened Options
  import opened Posix
  import opened Protocol
  import opened Paths
  import opened Collections
  import opened Watches
  import opened Walk
  import opened WalkGrowth
  import opened MainLoop

  // ---------- the invariant ----------

  ghost predicate Owner(roots: seq<Root>, k: int, capacity: nat)
    requires 0 < capacity
  {
    exists i :: 0 <= i < |roots| && 0 <= roots[i].id && Slot(roots[i].id, capacity) == k
  }

  /** Every parentless node is in the slot of some registered root's id. */
  ghost predicate Owned(s: Inotify, roots: seq<Root>)
    requires Shape(s)
  {
    forall p | p in s.nodes && s.nodes[p].parent == None :: Owner(roots, Slot(s.nodes[p].wd, s.capacity), s.capacity)
  }

  ghost predicate Inv(m: Monitor) {
    Valid(m.inotify) && RootsOk(m.roots) && Owned(m.inotify, m.roots) && Linked(m.inotify)
  }

  // ---------- pieces ----------

  lemma WatchGrows(s: Inotify, root: string, mounts: seq<string>, w: World)
    requires Valid(s) && NulFree(root)
    ensures var (t, r) := Watch(s, root, mounts, w);
      && Ages(s, t) && NoNewOrphans(s, t, r)
      && NewNodesPlaced(s, t, TrimSlash(Unflatten(root)), mounts)
  {
    var path := Unflatten(root);
    forall p | p in s.nodes ensures p < s.next { assert NodeOk(s, p); }
    if w.stat(path).Found? && w.stat(path).kind != SpecialFile {
      WalkTreeGrows(s, TrimSlash(path), None, path == root && w.stat(path).kind == Directory, mounts, w);
      WalkTreePlaces(s, TrimSlash(path), None, path == root && w.stat(path).kind == Directory, mounts, w);
    }
  }

  /** The roots `after` own every slot that the roots `before` own, but possibly `k`. */
  ghost predicate StillOwn(before: seq<Root>, after: seq<Root>, k: int, capacity: nat)
    requires 0 < capacity
  {
    forall j | Owner(before, j, capacity) && j != k :: Owner(after, j, capacity)
  }

  lemma RemoveKeeps(m: Monitor, id: int, roots: seq<Root>, notes: seq<Note>)
    requires Inv(m) && RootsOk(roots)
    requires StillOwn(m.roots, roots, Slot(id, m.inotify.capacity), m.inotify.capacity)
    ensures Inv(Monitor(Remove(m.inotify, id), roots, notes))
  {
    var s, t := m.inotify, Remove(m.inotify, id);
    RemoveAges(s, id);
    LinkedAfter(s, t, "", []);
    forall p | p in t.nodes && t.nodes[p].parent == None
      ensures Owner(roots, Slot(t.nodes[p].wd, t.capacity), t.capacity)
    {
      assert NodeOk(t, p) && NodeOk(s, p);
    }
  }

  lemma WalkKeeps(m: Monitor, t: Inotify, r: int, roots: seq<Root>, notes: seq<Note>, path: string, mounts: seq<string>)
    requires Inv(m) && RootsOk(roots) && Valid(t)
    requires Ages(m.inotify, t) && NoNewOrphans(m.inotify, t, r) && NewNodesPlaced(m.inotify, t, path, mounts)
    requires StillOwn(m.roots, roots, -1, m.inotify.capacity)
    requires 0 <= r ==> Owner(roots, Slot(r, t.capacity), t.capacity)
    ensures Inv(Monitor(t, roots, notes))
  {
    var s := m.inotify;
    LinkedAfter(s, t, path, mounts);
    forall p | p in t.nodes && t.nodes[p].parent == None
      ensures Owner(roots, Slot(t.nodes[p].wd, t.capacity), t.capacity)
    {
      assert NodeOk(t, p);
      if p in s.nodes { assert NodeOk(s, p); }
    }
  }

  lemma EmitKeeps(m: Monitor, text: seq<Output>)
    requires Inv(m)
    ensures Inv(m.(inotify := Emit(m.inotify, text)))
  {
  }

  lemma ReidKeepsOwners(roots: seq<Root>, i: nat, id: int, capacity: nat)
    requires 0 < capacity && i < |roots| && RootsOk(roots)
    ensures var after := roots[i := roots[i].(id := id)];
      && RootsOk(after)
      && StillOwn(roots, after, if roots[i].id < 0 then -1 else Slot(roots[i].id, capacity), capacity)
      && (0 <= id ==> Owner(after, Slot(id, capacity), capacity))
  {
    var after := roots[i := roots[i].(id := id)];
    forall j | Owner(roots, j, capacity) && (0 <= roots[i].id ==> j != Slot(roots[i].id, capacity))
      ensures Owner(after, j, capacity)
    {
      var k :| 0 <= k < |roots| && 0 <= roots[k].id && Slot(roots[k].id, capacity) == j;
      assert after[k] == roots[k];
    }
    assert after[i].id == id;
  }

  // ---------- every operation keeps the invariant ----------

  lemma RootRemovedKeeps(m: Monitor, i: nat, path: string)
    requires Inv(m) && i < |m.roots|
    ensures Inv(RootRemoved(m, i, path))
  {
    ReidKeepsOwners(m.roots, i, -1, m.inotify.capacity);
    var r := RootRemoved(m, i, path);
    RemoveKeeps(m, m.roots[i].id, r.roots, r.notes);
    EmitKeeps(r.(inotify := Remove(m.inotify, m.roots[i].id)), [Report(DELETE, path)]);
  }

  lemma {:induction false} CheckRootRemovalKeeps(m: Monitor, path: string, i: nat)
    requires Inv(m) && i <= |m.roots|
    ensures Inv(CheckRootRemoval(m, path, i))
    decreases |m.roots| - i
  {
    if i < |m.roots| {
      if !RootIs(m.roots[i], path) {
        CheckRootRemovalKeeps(m, path, i + 1);
      } else {
        RootRemovedKeeps(m, i, path);
        CheckRootRemovalKeeps(RootRemoved(m, i, path), path, i + 1);
      }
    }
  }

  lemma RootRestoredKeeps(m: Monitor, i: nat, w: World)
    requires Inv(m) && i < |m.roots| && m.roots[i].id < 0
    ensures Inv(RootRestored(m, i, w))
  {
    var (t, id) := Watch(m.inotify, m.roots[i].path, [], w);
    WatchGrows(m.inotify, m.roots[i].path, [], w);
    ReidKeepsOwners(m.roots, i, id, t.capacity);
    var r := RootRestored(m, i, w);
    var path := Unflatten(m.roots[i].path);
    WalkKeeps(m, t, id, r.roots, r.notes, TrimSlash(path), []);
    EmitKeeps(r.(inotify := t), [Report(CREATE, path), Report(CHANGE, path)]);
  }

  lemma {:induction false} CheckMissingRootsKeeps(m: Monitor, seen: nat -> bool, ws: nat -> World, i: nat)
    requires Inv(m) && i <= |m.roots|
    ensures Inv(CheckMissingRoots(m, seen, ws, i))
    decreases |m.roots| - i
  {
    if i < |m.roots| {
      if 0 <= m.roots[i].id || !seen(i) {
        CheckMissingRootsKeeps(m, seen, ws, i + 1);
      } else {
        RootRestoredKeeps(m, i, ws(i));
        CheckMissingRootsKeeps(RootRestored(m, i, ws(i)), seen, ws, i + 1);
      }
    }
  }

  lemma CallbackKeeps(m: Monitor, path: string, mask: set<Bit>)
    requires Inv(m)
    ensures Inv(Callback(m, path, mask))
  {
    EmitKeeps(m, Reports(path, mask));
    var t := m.(inotify := Emit(m.inotify, Reports(path, mask)));
    if InDeleteSelf in mask || InMoveSelf in mask {
      CheckRootRemovalKeeps(t, path, 0);
    } else {
      EmitKeeps(t, [Reset]);
    }
  }

  lemma DropKidKeeps(m: Monitor, p: Ptr, path: string)
    requires Inv(m) && p in m.inotify.nodes
    ensures Inv(m.(inotify := DropKid(m.inotify, p, path)))
  {
    var s := m.inotify;
    KidsLive(s, p);
    var i := FirstKid(s, s.nodes[p].kids, path, 0);
    if i < |s.nodes[p].kids| {
      var k := s.nodes[p].kids[i].value;
      assert NodeOk(s, k);
      assert Remove(s, s.nodes[k].wd) == Drop(s, k);
      RemoveKeeps(m, s.nodes[k].wd, m.roots, m.notes);
    }
  }

  lemma CallbackFrame(m: Monitor, path: string, mask: set<Bit>)
    requires Valid(m.inotify) && InDeleteSelf !in mask && InMoveSelf !in mask
    ensures var t := Callback(m, path, mask); t.roots == m.roots && t.inotify == m.inotify.(out := t.inotify.out)
  {
  }

  /** An event that changes the tree leaves its own node in place: the bits that remove roots come alone. */
  lemma EventNodeSurvives(m: Monitor, ev: Event, p: Ptr)
    requires Valid(m.inotify) && KernelEvent(ev) && p in m.inotify.nodes && ChangesTree(ev.mask)
    ensures p in Callback(m, EventPath(m.inotify, p, ev.name), ev.mask).inotify.nodes
  {
    CallbackFrame(m, EventPath(m.inotify, p, ev.name), ev.mask);
  }

  lemma {:induction false} CheckRootRemovalFrees(m: Monitor, path: string, i: nat, k: nat, p: Ptr)
    requires Valid(m.inotify) && i <= k < |m.roots| && RootIs(m.roots[k], path)
    requires p in m.inotify.nodes ==> TableGet(m.inotify, m.roots[k].id) == Some(p)
    ensures p !in CheckRootRemoval(m, path, i).inotify.nodes
    decreases |m.roots| - i
  {
    if RootIs(m.roots[i], path) {
      RemoveAges(m.inotify, m.roots[i].id);
      var t := RootRemoved(m, i, path);
      if i == k {
        CheckRootRemovalShrinks(t, path, i + 1);
      } else {
        if p in t.inotify.nodes { assert NodeOk(m.inotify, p) && NodeOk(t.inotify, p); }
        CheckRootRemovalFrees(t, path, i + 1, k, p);
      }
    } else {
      CheckRootRemovalFrees(m, path, i + 1, k, p);
    }
  }

  lemma {:induction false} CheckRootRemovalShrinks(m: Monitor, path: string, i: nat)
    requires Valid(m.inotify) && i <= |m.roots|
    ensures CheckRootRemoval(m, path, i).inotify.nodes.Keys <= m.inotify.nodes.Keys
    decreases |m.roots| - i
  {
    if i < |m.roots| {
      if RootIs(m.roots[i], path) {
        CheckRootRemovalShrinks(RootRemoved(m, i, path), path, i + 1);
      } else {
        CheckRootRemovalShrinks(m, path, i + 1);
      }
    }
  }

  /** Whereas the bits about the object itself free the node of a registered root before the callback returns. */
  lemma CallbackFreesRootNode(m: Monitor, path: string, mask: set<Bit>, k: nat, p: Ptr)
    requires Valid(m.inotify) && (InDeleteSelf in mask || InMoveSelf in mask)
    requires k < |m.roots| && RootIs(m.roots[k], path) && TableGet(m.inotify, m.roots[k].id) == Some(p)
    ensures p !in Callback(m, path, mask).inotify.nodes
  {
    CheckRootRemovalFrees(m.(inotify := Emit(m.inotify, Reports(path, mask))), path, 0, k, p);
  }

  lemma UpdatedTreeKeeps(m: Monitor, p: Ptr, mask: set<Bit>, path: string, w: World)
    requires Inv(m) && NulFree(path)
    requires ChangesTree(mask) ==> CanHold(m.inotify, Some(p), path)
    ensures Inv(m.(inotify := UpdatedTree(m.inotify, p, mask, path, w).0))
  {
    if InCreate in mask || InMovedTo in mask {
      WalkTreeGrows(m.inotify, path, Some(p), true, [], w);
      WalkTreePlaces(m.inotify, path, Some(p), true, [], w);
      WalkKeeps(m, WalkTree(m.inotify, path, Some(p), true, [], w).0, -1, m.roots, m.notes, path, []);
    } else if InDelete in mask || InMovedFrom in mask {
      DropKidKeeps(m, p, path);
    }
  }

  lemma ProcessEventKeeps(m: Monitor, ev: Event, w: World)
    requires Inv(m) && KernelEvent(ev)
    ensures Inv(ProcessEvent(m, ev, w).0)
  {
    if TableGet(m.inotify, ev.wd).Some? {
      var p := TableGet(m.inotify, ev.wd).value;
      var path := EventPath(m.inotify, p, ev.name);
      assert NodeOk(m.inotify, p);
      CallbackKeeps(m, path, ev.mask);
      if ChangesTree(ev.mask) {
        ChildIsChildOf(m.inotify.nodes[p].path, ev.name);
        CallbackFrame(m, path, ev.mask);
      }
      if ev.isDir { UpdatedTreeKeeps(Callback(m, path, ev.mask), p, ev.mask, path, w); }
    }
  }

  lemma {:induction false} UnregisterKeeps(m: Monitor)
    requires Inv(m)
    ensures Inv(Unregister(m))
    decreases |m.roots|
  {
    if m.roots != [] {
      var k := |m.roots| - 1;
      var roots := m.roots[..k];
      var c := m.inotify.capacity;
      forall j | Owner(m.roots, j, c) && j != Slot(m.roots[k].id, c) ensures Owner(roots, j, c) {
        var i :| 0 <= i < |m.roots| && 0 <= m.roots[i].id && Slot(m.roots[i].id, c) == j;
        assert roots[i] == m.roots[i];
      }
      RemoveKeeps(m, m.roots[k].id, roots, m.notes);
      UnregisterKeeps(m.(inotify := Remove(m.inotify, m.roots[k].id), roots := roots));
    }
  }

  lemma RegisterRootKeeps(m: Monitor, root: string, mounts: seq<string>, w: World)
    requires Inv(m) && NulFree(root)
    ensures Inv(RegisterRoot(m, root, mounts, w).monitor)
  {
    var path := Unflatten(root);
    if path != "" && path[0] == '/' && !ScanMounts(mounts, path).skip {
      var inner := ScanMounts(mounts, path).inner;
      var (t, id) := Watch(m.inotify, root, inner, w);
      WatchGrows(m.inotify, root, inner, w);
      var roots := RegisterRoot(m, root, mounts, w).monitor.roots;
      assert roots == m.roots || roots == m.roots + [Root(root, id)];
      forall j | Owner(m.roots, j, t.capacity) ensures Owner(roots, j, t.capacity) {
        var k :| 0 <= k < |m.roots| && 0 <= m.roots[k].id && Slot(m.roots[k].id, t.capacity) == j;
        assert roots[k] == m.roots[k];
      }
      if 0 <= id { assert roots[|m.roots|].id == id; }
      WalkKeeps(m, t, id, roots, m.notes, TrimSlash(path), inner);
    }
  }

  lemma {:induction false} RegisterKeeps(m: Monitor, newRoots: seq<string>, mounts: seq<string>,
          unwatchable: seq<string>, ws: nat -> World, i: nat)
    requires Inv(m) && i <= |newRoots|
    requires AllNulFree(newRoots)
    ensures Inv(Register(m, newRoots, mounts, unwatchable, ws, i).monitor)
    decreases |newRoots| - i
  {
    if i < |newRoots| {
      RegisterRootKeeps(m, newRoots[i], mounts, ws(i));
      var r := RegisterRoot(m, newRoots[i], mounts, ws(i));
      if r.ok { RegisterKeeps(r.monitor, newRoots, mounts, unwatchable + r.unwatchable, ws, i + 1); }
    }
  }

  lemma UpdateRootsKeeps(m: Monitor, newRoots: seq<string>, mounts: Option<seq<string>>, ws: nat -> World)
    requires Inv(m)
    requires AllNulFree(newRoots)
    ensures Inv(UpdateRoots(m, newRoots, mounts, ws).0)
  {
    UnregisterKeeps(m);
    if newRoots != [] && newRoots != ["/"] && mounts.Some? {
      RegisterKeeps(Unregister(m), newRoots, mounts.value, [], ws, 0);
    }
  }

  // ---------- runs ----------

  /** One turn of the main loop. */
  datatype Step =
    | RootsCommand(newRoots: seq<string>, mounts: Option<seq<string>>, ws: nat -> World)
    | InotifyInput(event: Event, w: World)
    | Timeout(seen: nat -> bool, ws: nat -> World)

  ghost predicate StepOk(step: Step) {
    match step
    case RootsCommand(newRoots, _, _) => AllNulFree(newRoots)
    case InotifyInput(event, _) => KernelEvent(event)
    case Timeout(_, _) => true
  }

  ghost function Turn(m: Monitor, step: Step): (r: (Monitor, bool))
    requires Inv(m) && StepOk(step)
    ensures Inv(r.0)
  {
    match step
    case RootsCommand(newRoots, mounts, ws) =>
      UpdateRootsKeeps(m, newRoots, mounts, ws);
      UpdateRoots(m, newRoots, mounts, ws)
    case InotifyInput(event, w) =>
      ProcessEventKeeps(m, event, w);
      ProcessEvent(m, event, w)
    case Timeout(seen, ws) =>
      CheckMissingRootsKeeps(m, seen, ws, 0);
      (CheckMissingRoots(m, seen, ws, 0), true)
  }

  /** The main loop, which stops at the first turn that fails. */
  ghost function Run(m: Monitor, steps: seq<Step>): (r: Monitor)
    requires Inv(m) && forall step | step in steps :: StepOk(step)
    ensures Inv(r)
    decreases |steps|
  {
    if steps == [] then m
    else
      assert steps[0] in steps;
      var (t, ok) := Turn(m, steps[0]);
      if ok then Run(t, steps[1..]) else t
  }

  lemma FirstTurn(m: Monitor, steps: seq<Step>)
    requires Inv(m) && steps != [] && forall step | step in steps :: StepOk(step)
    ensures StepOk(steps[0])
    ensures Run(m, steps) == if Turn(m, steps[0]).1 then Run(Turn(m, steps[0]).0, steps[1..]) else Turn(m, steps[0]).0
  {
    assert steps[0] in steps;
  }

  lemma OneTurn(m: Monitor, steps: seq<Step>)
    requires Inv(m) && |steps| == 1 && StepOk(steps[0])
    ensures Run(m, steps) == Turn(m, steps[0]).0
  {
    FirstTurn(m, steps);
    assert steps[1..] == [];
  }

  lemma TwoTurns(m: Monitor, steps: seq<Step>)
    requires Inv(m) && |steps| == 2 && (forall step | step in steps :: StepOk(step)) && Turn(m, steps[0]).1
    ensures Run(m, steps) == Turn(Turn(m, steps[0]).0, steps[1]).0
  {
    FirstTurn(m, steps);
    OneTurn(Turn(m, steps[0]).0, steps[1..]);
  }

  ghost function Start(capacity: nat): (m: Monitor)
    requires 0 < capacity
    ensures Inv(m)
  {
    var s := Inotify(capacity, map[], seq(capacity, _ => None), 0, false, [], multiset{}, multiset{}, {});
    StartValid(s);
    Monitor(s, [], [])
  }

  lemma StartValid(s: Inotify)
    requires Shape(s) && s.nodes == map[] && s.issued == s.released && s.strays == {}
    requires forall k | 0 <= k < |s.table| :: s.table[k] == None
    ensures Valid(s)
  {
    forall wd: nat ensures Balanced(s, wd) {}
  }

  lemma {:induction false} UnregisterFrame(m: Monitor)
    requires Valid(m.inotify)
    ensures Unregister(m).inotify.strays == m.inotify.strays && Unregister(m).inotify.capacity == m.inotify.capacity
    decreases |m.roots|
  {
    if m.roots != [] {
      var k := |m.roots| - 1;
      UnregisterFrame(m.(inotify := Remove(m.inotify, m.roots[k].id), roots := m.roots[..k]));
    }
  }

  lemma OrphanAbove(s: Inotify, p: Ptr) returns (top: Ptr)
    requires Valid(s) && p in s.nodes
    ensures top in s.nodes && s.nodes[top].parent == None
    decreases p
  {
    assert NodeOk(s, p);
    if s.nodes[p].parent == None { top := p; } else { top := OrphanAbove(s, s.nodes[p].parent.value); }
  }

  /** Unregistering the roots frees every node, empties the table and hands every descriptor back to the
      kernel, as often as it was issued, except the strays: each of them is still held. */
  lemma UnregisterEmpties(m: Monitor)
    requires Inv(m)
    ensures var s := Unregister(m).inotify;
      && s.nodes == map[] && s.strays == m.inotify.strays && s.capacity == m.inotify.capacity
      && (forall k | 0 <= k < |s.table| :: s.table[k] == None)
      && (forall wd: nat :: s.issued[wd] == s.released[wd] + if wd in s.strays then 1 else 0)
      && (s.issued == s.released <==> s.strays == {})
  {
    UnregisterKeeps(m);
    UnregisterFrame(m);
    var s := Unregister(m).inotify;
    if p :| p in s.nodes {
      var top := OrphanAbove(s, p);
    }
    forall k: nat | k < |s.table| ensures s.table[k] == None { assert SlotOk(s, k); }
    forall wd: nat ensures s.issued[wd] == s.released[wd] + if wd in s.strays then 1 else 0 { assert Balanced(s, wd); }
    if s.strays == {} { assert s.issued == s.released; }
    if wd :| wd in s.strays { assert s.issued[wd] != s.released[wd]; }
  }

  /** This holds after any run, whatever the kernel answered, stale ids included: every watch node is freed, and
      every descriptor is handed back if and only if none was refused for good because another node had its slot. */
  lemma ShutdownIsClean(capacity: nat, steps: seq<Step>)
    requires 0 < capacity && forall step | step in steps :: StepOk(step)
    ensures var m := Run(Start(capacity), steps);
      && Valid(m.inotify)
      && Unregister(m).inotify.nodes == map[]
      && (forall k | 0 <= k < |Unregister(m).inotify.table| :: Unregister(m).inotify.table[k] == None)
      && (Unregister(m).inotify.issued == Unregister(m).inotify.released <==> m.inotify.strays == {})
  {
    UnregisterEmpties(Run(Start(capacity), steps));
  }
}
