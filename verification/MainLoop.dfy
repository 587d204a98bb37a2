/** Events and roots: `process_inotify_event` of inotify.c and the root list of main.c. */
module MainLoop {
  import opened Options
  import opened Posix
  import opened Paths
  import opened Protocol
  import opened Watches
  import opened Walk

  /** A registered root; a negative `id` means it is missing. */
  datatype Root = Root(path: string, id: int)

  /** A report about root `root` itself; `ok` tells whether it could be watched again. */
  datatype Note = Deleted(root: nat) | Created(root: nat, ok: bool)

  /** The state of the program, plus a ledger of the reports about roots. */
  datatype Monitor = Monitor(inotify: Inotify, roots: seq<Root>, notes: seq<Note>)

  datatype Bit = InModify | InAttrib | InCreate | InDelete | InMovedFrom | InMovedTo | InDeleteSelf | InMoveSelf
    | InUnmount

  /** An inotify event; `name` is empty when the event is about the watched object itself. */
  datatype Event = Event(wd: int, mask: set<Bit>, isDir: bool, name: string)

  // ---------- reports ----------

  function Reports(path: string, mask: set<Bit>): seq<Output> {
    if InCreate in mask || InMovedTo in mask then [Report(CREATE, path), Report(CHANGE, path)]
    else if InModify in mask then [Report(CHANGE, path)]
    else if InAttrib in mask then [Report(STATS, path)]
    else if InDelete in mask || InMovedFrom in mask then [Report(DELETE, path)]
    else []
  }

  // ---------- root removal and restoration ----------

  ghost predicate RootIs(r: Root, path: string) {
    0 <= r.id && path == Unflatten(r.path)
  }

  ghost function RootRemoved(m: Monitor, i: nat, path: string): (r: Monitor)
    requires Valid(m.inotify) && i < |m.roots|
    ensures Valid(r.inotify) && |r.roots| == |m.roots|
  {
    Monitor(Emit(Remove(m.inotify, m.roots[i].id), [Report(DELETE, path)]),
            m.roots[i := m.roots[i].(id := -1)],
            m.notes + [Deleted(i)])
  }

  ghost function RootRestored(m: Monitor, i: nat, w: World): (r: Monitor)
    requires Valid(m.inotify) && i < |m.roots| && NulFree(m.roots[i].path)
    ensures Valid(r.inotify) && |r.roots| == |m.roots|
    ensures forall j | 0 <= j < |m.roots| :: r.roots[j].path == m.roots[j].path
    ensures RootsOk(m.roots) ==> RootsOk(r.roots)
  {
    var (t, id) := Watch(m.inotify, m.roots[i].path, [], w);
    var path := Unflatten(m.roots[i].path);
    Monitor(Emit(t, [Report(CREATE, path), Report(CHANGE, path)]),
            m.roots[i := m.roots[i].(id := id)],
            m.notes + [Created(i, 0 <= id)])
  }

  ghost function CheckRootRemoval(m: Monitor, path: string, i: nat): (r: Monitor)
    requires Valid(m.inotify) && i <= |m.roots|
    ensures Valid(r.inotify)
    decreases |m.roots| - i
  {
    if i == |m.roots| then m
    else if !RootIs(m.roots[i], path) then CheckRootRemoval(m, path, i + 1)
    else
      CheckRootRemoval(RootRemoved(m, i, path), path, i + 1)
  }

  /** `seen(i)` tells whether root `i` exists again; `ws(i)` answers the walk that re-attaches it. */
  ghost function CheckMissingRoots(m: Monitor, seen: nat -> bool, ws: nat -> World, i: nat): (r: Monitor)
    requires Valid(m.inotify) && i <= |m.roots| && RootsOk(m.roots)
    ensures Valid(r.inotify)
    decreases |m.roots| - i
  {
    if i == |m.roots| then m
    else if 0 <= m.roots[i].id || !seen(i) then CheckMissingRoots(m, seen, ws, i + 1)
    else
      CheckMissingRoots(RootRestored(m, i, ws(i)), seen, ws, i + 1)
  }

  // ---------- events ----------

  /** The kernel sends one event bit at a time, and a name with every event about a directory entry. */
  ghost predicate KernelEvent(ev: Event) {
    && (forall b, c | b in ev.mask && c in ev.mask :: b == c)
    && (ev.name == "" || EntryName(ev.name))
    && (ChangesTree(ev.mask) ==> ev.name != "")
  }

  ghost function EventPath(s: Inotify, p: Ptr, name: string): string
    requires p in s.nodes
  {
    if name == "" then s.nodes[p].path else Child(s.nodes[p].path, name)
  }

  ghost function Callback(m: Monitor, path: string, mask: set<Bit>): (r: Monitor)
    requires Valid(m.inotify)
    ensures Valid(r.inotify)
  {
    var t := m.(inotify := Emit(m.inotify, Reports(path, mask)));
    if InDeleteSelf in mask || InMoveSelf in mask then CheckRootRemoval(t, path, 0)
    else if InUnmount in mask then t.(inotify := Emit(t.inotify, [Reset]))
    else t
  }

  /** The first kid at or after `i` whose path is a string prefix of `path`. */
  ghost function FirstKid(s: Inotify, kids: seq<Option<Ptr>>, path: string, i: nat): (r: nat)
    requires forall k | k in kids && k.Some? :: k.value in s.nodes
    requires i <= |kids|
    ensures i <= r <= |kids|
    ensures r < |kids| ==> kids[r].Some? && s.nodes[kids[r].value].path <= path
    ensures forall j | i <= j < r && kids[j].Some? :: !(s.nodes[kids[j].value].path <= path)
    decreases |kids| - i
  {
    if i == |kids| || (kids[i].Some? && s.nodes[kids[i].value].path <= path) then i else FirstKid(s, kids, path, i + 1)
  }

  lemma KidsLive(s: Inotify, p: Ptr)
    requires Valid(s) && p in s.nodes
    ensures forall k | k in s.nodes[p].kids && k.Some? :: k.value in s.nodes && s.nodes[k.value].parent == Some(p)
  {
    assert NodeOk(s, p);
  }

  ghost function DropKid(s: Inotify, p: Ptr, path: string): (r: Inotify)
    requires Valid(s) && p in s.nodes
    ensures Valid(r)
  {
    KidsLive(s, p);
    var kids := s.nodes[p].kids;
    var i := FirstKid(s, kids, path, 0);
    if i == |kids| then s
    else
      DropValid(s, kids[i].value);
      Drop(s, kids[i].value)
  }

  predicate ChangesTree(mask: set<Bit>) {
    InCreate in mask || InMovedTo in mask || InDelete in mask || InMovedFrom in mask
  }

  /** What happens to the forest after the callback, for an event about a directory. */
  ghost function UpdatedTree(s: Inotify, p: Ptr, mask: set<Bit>, path: string, w: World): (r: (Inotify, bool))
    requires Valid(s) && NulFree(path) && (ChangesTree(mask) ==> p in s.nodes)
    ensures Valid(r.0)
  {
    if InCreate in mask || InMovedTo in mask then
      var (t, result) := WalkTree(s, path, Some(p), true, [], w);
      (t, !(Hard(result) && result != ERR_CONTINUE))
    else if InDelete in mask || InMovedFrom in mask then (DropKid(s, p, path), true)
    else (s, true)
  }

  /** The node of the event is still there when it is used: the bits that free it come alone. */
  ghost function ProcessEvent(m: Monitor, ev: Event, w: World): (r: (Monitor, bool))
    requires Valid(m.inotify) && KernelEvent(ev)
    ensures Valid(r.0.inotify)
  {
    match TableGet(m.inotify, ev.wd)
    case None => (m, true)
    case Some(p) =>
      assert NodeOk(m.inotify, p);
      var path := EventPath(m.inotify, p, ev.name);
      var t := Callback(m, path, ev.mask);
      if !ev.isDir then (t, true)
      else
        var (u, ok) := UpdatedTree(t.inotify, p, ev.mask, path, w);
        (t.(inotify := u), ok)
  }

  // ---------- the root list ----------

  predicate RootOk(root: string) {
    NulFree(root) && Unflatten(root) != "" && Unflatten(root)[0] == '/'
  }

  ghost predicate RootsOk(roots: seq<Root>) {
    forall i | 0 <= i < |roots| :: RootOk(roots[i].path)
  }

  ghost function Unregister(m: Monitor): (r: Monitor)
    requires Valid(m.inotify)
    ensures Valid(r.inotify) && r.roots == []
    decreases |m.roots|
  {
    if m.roots == [] then m
    else
      var k := |m.roots| - 1;
      Unregister(m.(inotify := Remove(m.inotify, m.roots[k].id), roots := m.roots[..k]))
  }

  datatype Scan = Scan(skip: bool, inner: seq<string>, unwatchable: seq<string>)

  /** The mounts a root lies under, and those it contains. */
  function ScanMounts(mounts: seq<string>, root: string): Scan {
    if mounts == [] then Scan(false, [], [])
    else if IsParentPath(mounts[0], root) then Scan(true, [], [root])
    else
      var rest := ScanMounts(mounts[1..], root);
      if IsParentPath(root, mounts[0]) then Scan(rest.skip, [mounts[0]] + rest.inner, [mounts[0]] + rest.unwatchable)
      else rest
  }

  datatype Registered = Registered(monitor: Monitor, unwatchable: seq<string>, ok: bool)

  /** One root; `unwatchable` lists the paths it adds, `ok` is false when the program must stop. */
  ghost function RegisterRoot(m: Monitor, root: string, mounts: seq<string>, w: World): (r: Registered)
    requires Valid(m.inotify) && NulFree(root)
    ensures Valid(r.monitor.inotify)
  {
    var path := Unflatten(root);
    if path == "" || path[0] != '/' then Registered(m, [], true)
    else
      var scan := ScanMounts(mounts, path);
      if scan.skip then Registered(m, scan.unwatchable, true)
      else
        var (t, id) := Watch(m.inotify, root, scan.inner, w);
        if 0 <= id || id == ERR_MISSING then
          Registered(m.(inotify := t, roots := m.roots + [Root(root, id)]), scan.unwatchable, true)
        else
          Registered(m.(inotify := t),
                     if id == ERR_IGNORE || id == ERR_ABORT then scan.unwatchable else scan.unwatchable + [path],
                     id != ERR_ABORT)
  }

  ghost predicate AllNulFree(newRoots: seq<string>) {
    forall i | 0 <= i < |newRoots| :: NulFree(newRoots[i])
  }

  ghost function Register(m: Monitor, newRoots: seq<string>, mounts: seq<string>, unwatchable: seq<string>,
          ws: nat -> World, i: nat): (r: Registered)
    requires Valid(m.inotify) && i <= |newRoots|
    requires AllNulFree(newRoots)
    ensures Valid(r.monitor.inotify)
    decreases |newRoots| - i
  {
    if i == |newRoots| then Registered(m, unwatchable, true)
    else
      var r := RegisterRoot(m, newRoots[i], mounts, ws(i));
      if r.ok then Register(r.monitor, newRoots, mounts, unwatchable + r.unwatchable, ws, i + 1)
      else Registered(r.monitor, unwatchable + r.unwatchable, false)
  }

  /** `mounts` is None when the mount table cannot be read. */
  ghost function UpdateRoots(m: Monitor, newRoots: seq<string>, mounts: Option<seq<string>>,
          ws: nat -> World): (r: (Monitor, bool))
    requires Valid(m.inotify)
    requires AllNulFree(newRoots)
    ensures Valid(r.0.inotify)
  {
    var t := Unregister(m);
    if newRoots == [] then (t.(inotify := Emit(t.inotify, [Unwatchable([])])), true)
    else if newRoots == ["/"] then (t.(inotify := Emit(t.inotify, [Unwatchable(["/"])])), true)
    else if mounts == None then (t, false)
    else
      var r := Register(t, newRoots, mounts.value, [], ws, 0);
      if !r.ok then (r.monitor, false)
      else (r.monitor.(inotify := Emit(r.monitor.inotify, [Unwatchable(r.unwatchable)])), true)
  }
}
