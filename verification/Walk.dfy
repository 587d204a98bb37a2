/** `add_watch`, `walk_tree` and `watch` of inotify.c, as functions on the forest. */
module Walk {
  import opened Options
  import opened Posix
  import opened Paths
  import opened Protocol
  import opened Collections
  import opened Watches

  // ---------- add_watch ----------

  /** The ledger after the kernel answers `wd`: a watch that it still holds is not a new one. */
  ghost function Issue(s: Inotify, wd: nat): multiset<nat> {
    if s.released[wd] < s.issued[wd] then s.issued else s.issued + multiset{wd}
  }

  ghost function Insert(s: Inotify, wd: nat, path: string, parent: Option<Ptr>): Inotify
    requires Shape(s) && Live(s, parent)
  {
    var linked := if parent.Some?
      then s.nodes[parent.value := s.nodes[parent.value].(kids := s.nodes[parent.value].kids + [Some(s.next)])]
      else s.nodes;
    s.(nodes := linked[s.next := Node(wd, path, |path|, parent, [])],
       table := s.table[Slot(wd, s.capacity) := Some(s.next)],
       next := s.next + 1,
       issued := Issue(s, wd),
       strays := s.strays - {wd})
  }

  /** The program gives up `wd`, and the kernel keeps watching. */
  ghost function Stray(s: Inotify, wd: nat): (r: Inotify)
    requires Valid(s) && !Holds(s, wd)
    ensures Valid(r)
  {
    StrayValid(s, wd);
    s.(issued := Issue(s, wd), strays := s.strays + {wd})
  }

  lemma StrayValid(s: Inotify, wd: nat)
    requires Valid(s) && !Holds(s, wd)
    ensures Valid(s.(issued := Issue(s, wd), strays := s.strays + {wd}))
  {
    var t := s.(issued := Issue(s, wd), strays := s.strays + {wd});
    forall k: nat | k < |t.table| ensures SlotOk(t, k) { assert SlotOk(s, k); }
    forall q | q in t.nodes ensures NodeOk(t, q) { assert NodeOk(s, q); }
    assert Balanced(s, wd);
    forall x: nat ensures Balanced(t, x) { assert Balanced(s, x); }
  }

  ghost function ReachLimit(s: Inotify): (r: Inotify)
    requires Valid(s)
    ensures Valid(r)
  {
    EmitValid(s, true, [LimitMessage]);
    if s.limitReached then s else s.(limitReached := true, out := s.out + [LimitMessage])
  }

  function RefusedCode(e: Errno): (r: int) {
    match e
    case EACCES | ENOENT => ERR_IGNORE
    case ENOSPC => ERR_CONTINUE
    case _ => ERR_ABORT
  }

  ghost function AddWatch(s: Inotify, path: string, parent: Option<Ptr>, w: Answers): (r: (Inotify, int))
    requires Valid(s) && Live(s, parent) && NulFree(path)
    ensures Valid(r.0)
  {
    match w.addWatch(path)
    case Refused(e) => (if e == ENOSPC then ReachLimit(s) else s, RefusedCode(e))
    case Descriptor(wd) =>
      match TableGet(s, wd)
      case None => InsertValid(s, wd, path, parent); (Insert(s, wd, path, parent), wd)
      case Some(p) =>
        var n := s.nodes[p];
        if n.wd != wd then (Stray(s, wd), ERR_ABORT)
        else if n.path == path then (s, wd)
        else if w.realpath(n.path).Some? && w.realpath(n.path) == w.realpath(path) then (s, ERR_IGNORE)
        else (s, ERR_ABORT)
  }

  lemma InsertValid(s: Inotify, wd: nat, path: string, parent: Option<Ptr>)
    requires Valid(s) && Live(s, parent) && NulFree(path) && TableGet(s, wd) == None
    ensures Valid(Insert(s, wd, path, parent))
  {
    var t := Insert(s, wd, path, parent);
    forall q | q in s.nodes ensures q != s.next && s.nodes[q].wd != wd { assert NodeOk(s, q); }
    assert Balanced(s, wd);
    forall x: nat ensures Balanced(t, x) { assert Balanced(s, x); }
    forall k: nat | k < |t.table| ensures SlotOk(t, k) {
      assert SlotOk(s, k);
    }
    forall q | q in t.nodes ensures NodeOk(t, q) {
      InsertKeepsNode(s, wd, path, parent, q);
    }
  }

  lemma InsertKeepsNode(s: Inotify, wd: nat, path: string, parent: Option<Ptr>, q: Ptr)
    requires Valid(s) && Live(s, parent) && NulFree(path) && TableGet(s, wd) == None && s.next !in s.nodes
    requires q in s.nodes || q == s.next
    ensures var t := Insert(s, wd, path, parent); q in t.nodes && NodeOk(t, q)
  {
    var t := Insert(s, wd, path, parent);
    if parent.Some? {
      assert NodeOk(s, parent.value);
      var kids' := t.nodes[parent.value].kids;
      assert kids'[|kids'| - 1] == Some(s.next);
    }
    if q in s.nodes {
      assert NodeOk(s, q);
      var up := s.nodes[q].parent;
      if up.Some? {
        var i :| 0 <= i < |s.nodes[up.value].kids| && s.nodes[up.value].kids[i] == Some(q);
        assert t.nodes[up.value].kids[i] == Some(q);
      }
      forall i | 0 <= i < |s.nodes[q].kids| && s.nodes[q].kids[i].Some?
        ensures s.nodes[q].kids[i].value in t.nodes && t.nodes[s.nodes[q].kids[i].value].parent == Some(q)
          && s.nodes[q].kids[i] != Some(s.next)
      {
        assert NodeOk(s, s.nodes[q].kids[i].value);
      }
    }
  }

  // ---------- walk_tree ----------

  predicate Crosses(path: string, mounts: seq<string>) {
    exists j | 0 <= j < |mounts| :: mounts[j] <= path
  }

  /** The walk goes into `e` listed in the directory at `path`. */
  predicate Followed(path: string, e: Entry, w: Answers) {
    && e.name != "." && e.name != ".."
    && (e.kind == DtDir || (e.kind == DtUnknown && w.stat(Child(path, e.name)) == Found(Directory)))
  }

  predicate Hard(result: int) {
    result < 0 && result != ERR_IGNORE
  }

  function OpenCode(e: Errno): int {
    if e == EACCES || e == ENOENT || e == ENOTDIR then ERR_IGNORE else ERR_CONTINUE
  }

  ghost function WalkTree(s: Inotify, path: string, parent: Option<Ptr>, recursive: bool, mounts: seq<string>,
          w: World): (r: (Inotify, int))
    requires Valid(s) && Live(s, parent) && NulFree(path)
    ensures Valid(r.0)
    decreases if |path| < PATH_MAX then PATH_MAX - |path| else 0, 1, 0
  {
    if Crosses(path, mounts) then (s, ERR_IGNORE)
    else if recursive && w.opendir(path).NotOpened? then (s, OpenCode(w.opendir(path).openErr))
    else
      var (t, id) := AddWatch(s, path, parent, w);
      if !recursive || id < 0 then (t, id)
      else WalkEntries(t, path, id, w.opendir(path).entries, mounts, w)
  }

  ghost function WalkEntries(s: Inotify, path: string, id: int, entries: seq<Entry>, mounts: seq<string>,
          w: World): (r: (Inotify, int))
    requires Valid(s) && NulFree(path) && |path| < PATH_MAX
    requires forall e | e in entries :: FileName(e.name)
    ensures Valid(r.0)
    decreases PATH_MAX - |path|, 0, |entries|
  {
    if entries == [] then (s, id)
    else if !Followed(path, entries[0], w) then WalkEntries(s, path, id, entries[1..], mounts, w)
    else
      assert entries[0] in entries;
      var (t, sub) := WalkTree(s, Child(path, entries[0].name), TableGet(s, id), true, mounts, w);
      if Hard(sub) then (Remove(t, id), sub)
      else WalkEntries(t, path, id, entries[1..], mounts, w)
  }

  // ---------- watch ----------

  function StatCode(e: Errno): int {
    match e
    case ENOENT => ERR_MISSING
    case EACCES | ELOOP | ENAMETOOLONG | ENOTDIR => ERR_CONTINUE
    case _ => ERR_ABORT
  }

  function Unflatten(root: string): string {
    if root != "" && root[0] == '|' then root[1..] else root
  }

  ghost function Watch(s: Inotify, root: string, mounts: seq<string>, w: World): (r: (Inotify, int))
    requires Valid(s) && NulFree(root)
    ensures Valid(r.0)
  {
    var path := Unflatten(root);
    match w.stat(path)
    case NotFound(e) => (s, StatCode(e))
    case Found(SpecialFile) => (s, ERR_IGNORE)
    case Found(kind) => WalkTree(s, TrimSlash(path), None, path == root && kind == Directory, mounts, w)
  }
}
