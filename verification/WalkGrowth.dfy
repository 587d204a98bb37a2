/** What any walk does to the forest, whatever the kernel answers. */
module WalkGrowth {
  import opened Options
  import opened Posix
  import opened Paths
  import opened Watches
  import opened Walk

  ghost predicate Same(n: Node, m: Node) {
    n.wd == m.wd && n.path == m.path && n.parent == m.parent
  }

  /** Nodes of `t` older than `s.next` are nodes of `s`, with the same descriptor, path and parent. */
  ghost predicate Ages(s: Inotify, t: Inotify) {
    && s.capacity == t.capacity
    && s.next <= t.next
    && forall p | p in t.nodes && p < s.next :: p in s.nodes && Same(s.nodes[p], t.nodes[p])
  }

  ghost predicate Extends(s: Inotify, t: Inotify) {
    Ages(s, t) && s.nodes.Keys <= t.nodes.Keys
  }

  /** `id` is the descriptor of the live node at `path`. */
  ghost predicate Watched(s: Inotify, id: int, path: string)
    requires Valid(s)
  {
    && 0 <= id
    && TableGet(s, id).Some?
    && s.nodes[TableGet(s, id).value].wd == id
    && s.nodes[TableGet(s, id).value].path == path
  }

  /** Every parentless node of `t` was one of `s`, except possibly the one in the slot of `r`. */
  ghost predicate NoNewOrphans(s: Inotify, t: Inotify, r: int)
    requires Shape(t)
  {
    forall p | p in t.nodes && t.nodes[p].parent == None && p !in s.nodes :: 0 <= r && TableGet(t, r) == Some(p)
  }

  lemma InsertGrows(s: Inotify, wd: nat, path: string, parent: Option<Ptr>)
    requires Valid(s) && Live(s, parent)
    ensures var t := Insert(s, wd, path, parent);
      && s.next !in s.nodes
      && Extends(s, t)
      && t.nodes.Keys == s.nodes.Keys + {s.next}
      && t.nodes[s.next] == Node(wd, path, |path|, parent, [])
      && TableGet(t, wd) == Some(s.next)
  {
    forall q | q in s.nodes ensures q < s.next { assert NodeOk(s, q); }
  }

  lemma AddWatchGrows(s: Inotify, path: string, parent: Option<Ptr>, w: Answers)
    requires Valid(s) && Live(s, parent) && NulFree(path)
    ensures var (t, r) := AddWatch(s, path, parent, w);
      && Extends(s, t)
      && (0 <= r ==> Watched(t, r, path))
      && (r < 0 ==> t.nodes == s.nodes && t.table == s.table)
      && (forall p | p in t.nodes && p !in s.nodes ::
            0 <= r && TableGet(t, r) == Some(p) && t.nodes[p].parent == parent)
  {
    match w.addWatch(path)
    case Refused(_) =>
    case Descriptor(wd) =>
      if TableGet(s, wd) == None { InsertGrows(s, wd, path, parent); }
  }

  lemma RemoveAges(s: Inotify, wd: int)
    requires Valid(s)
    ensures Valid(Remove(s, wd)) && Ages(s, Remove(s, wd))
    ensures TableGet(s, wd).Some? ==> TableGet(s, wd).value !in Remove(s, wd).nodes
    ensures forall p | p in Remove(s, wd).nodes :: p in s.nodes && Same(s.nodes[p], Remove(s, wd).nodes[p])
    ensures forall p | p in s.nodes && p !in Remove(s, wd).nodes :: Under(s.nodes, TableGet(s, wd).value, p)
  {
    if TableGet(s, wd).Some? { DropValid(s, TableGet(s, wd).value); }
  }

  lemma GrowthComposes(s: Inotify, t: Inotify, u: Inotify)
    requires Valid(t) && Shape(u) && Ages(s, t) && Ages(t, u)
    ensures Ages(s, u)
    ensures Extends(s, t) && Extends(t, u) ==> Extends(s, u)
    ensures NoNewOrphans(s, t, -1) && NoNewOrphans(t, u, -1) ==> NoNewOrphans(s, u, -1)
  {
    forall p | p in t.nodes ensures p < t.next { assert NodeOk(t, p); }
  }

  lemma OnlyTheTopIsNew(s: Inotify, t: Inotify, u: Inotify, parent: Option<Ptr>, id: int, r: int)
    requires Valid(t) && Shape(u) && Ages(t, u) && NoNewOrphans(t, u, -1)
    requires forall p | p in t.nodes && p !in s.nodes :: TableGet(t, id) == Some(p) && t.nodes[p].parent == parent
    requires TableGet(t, id).Some?
    requires if Hard(r) then TableGet(t, id).value !in u.nodes else 0 <= r && TableGet(u, r) == TableGet(t, id)
    ensures NoNewOrphans(s, u, r)
    ensures parent.Some? ==> NoNewOrphans(s, u, -1)
  {
    forall p | p in t.nodes ensures p < t.next { assert NodeOk(t, p); }
  }

  lemma {:induction false} WalkTreeGrows(s: Inotify, path: string, parent: Option<Ptr>, recursive: bool,
          mounts: seq<string>, w: World)
    requires Valid(s) && Live(s, parent) && NulFree(path)
    ensures var (t, r) := WalkTree(s, path, parent, recursive, mounts, w);
      && Ages(s, t)
      && (!Hard(r) ==> Extends(s, t))
      && (0 <= r ==> Watched(t, r, path))
      && (r == ERR_IGNORE ==> t == s)
      && (parent.Some? ==> NoNewOrphans(s, t, -1))
      && NoNewOrphans(s, t, r)
    decreases if |path| < PATH_MAX then PATH_MAX - |path| else 0, 1, 0
  {
    if Crosses(path, mounts) {
    } else if recursive && w.opendir(path).NotOpened? {
    } else {
      var (t, id) := AddWatch(s, path, parent, w);
      AddWatchGrows(s, path, parent, w);
      if recursive && 0 <= id {
        var (u, r) := WalkEntries(t, path, id, w.opendir(path).entries, mounts, w);
        WalkEntriesGrows(t, path, id, w.opendir(path).entries, mounts, w);
        GrowthComposes(s, t, u);
        OnlyTheTopIsNew(s, t, u, parent, id, r);
      }
    }
  }

  lemma {:induction false} WalkEntriesGrows(s: Inotify, path: string, id: int, entries: seq<Entry>,
          mounts: seq<string>, w: World)
    requires Valid(s) && NulFree(path) && |path| < PATH_MAX
    requires forall e | e in entries :: FileName(e.name)
    requires Watched(s, id, path)
    ensures var (t, r) := WalkEntries(s, path, id, entries, mounts, w);
      && Ages(s, t)
      && NoNewOrphans(s, t, -1)
      && (if Hard(r) then TableGet(s, id).value !in t.nodes
          else Extends(s, t) && r == id && Watched(t, r, path) && TableGet(t, id) == TableGet(s, id))
      && r != ERR_IGNORE
    decreases PATH_MAX - |path|, 0, |entries|
  {
    var n := TableGet(s, id).value;
    assert NodeOk(s, n);
    if entries == [] {
    } else if !Followed(path, entries[0], w) {
      WalkEntriesGrows(s, path, id, entries[1..], mounts, w);
    } else {
      assert entries[0] in entries;
      var child := Child(path, entries[0].name);
      var (t, sub) := WalkTree(s, child, Some(n), true, mounts, w);
      WalkTreeGrows(s, child, Some(n), true, mounts, w);
      if n in t.nodes { assert NodeOk(t, n); }
      if Hard(sub) {
        RemoveAges(t, id);
        GrowthComposes(s, t, Remove(t, id));
      } else {
        WalkEntriesGrows(t, path, id, entries[1..], mounts, w);
        GrowthComposes(s, t, WalkEntries(t, path, id, entries[1..], mounts, w).0);
      }
    }
  }

  // ---------- where new nodes are ----------

  /** Every new node is at or below `path`, outside all mounts, and one name below its parent. */
  ghost predicate NewNodesPlaced(s: Inotify, t: Inotify, path: string, mounts: seq<string>) {
    forall p | p in t.nodes && p !in s.nodes :: Placed(t.nodes, p, path, mounts)
  }

  ghost predicate Placed(nodes: map<Ptr, Node>, p: Ptr, path: string, mounts: seq<string>)
    requires p in nodes
  {
    IsParentPath(path, nodes[p].path) && !Crosses(nodes[p].path, mounts) && LinkedAt(nodes, p)
  }

  ghost predicate LinkedAt(nodes: map<Ptr, Node>, p: Ptr)
    requires p in nodes
  {
    var parent := nodes[p].parent;
    && Resolvable(nodes[p].path)
    && (parent.Some? ==> parent.value in nodes && IsChildOf(nodes[parent.value].path, nodes[p].path))
  }

  /** Every node's path can be resolved, and is its parent's path, a slash and one name. */
  ghost predicate Linked(s: Inotify) {
    forall p | p in s.nodes :: LinkedAt(s.nodes, p)
  }

  ghost predicate CanHold(s: Inotify, parent: Option<Ptr>, path: string) {
    parent.Some? ==> parent.value in s.nodes && IsChildOf(s.nodes[parent.value].path, path)
  }

  lemma PlacementComposes(s: Inotify, t: Inotify, u: Inotify, inner: string, path: string, mounts: seq<string>)
    requires Valid(t) && Valid(u) && Ages(t, u) && IsParentPath(path, inner)
    requires NewNodesPlaced(s, t, inner, mounts) && NewNodesPlaced(t, u, path, mounts)
    ensures NewNodesPlaced(s, u, path, mounts)
  {
    forall p | p in u.nodes && p !in s.nodes ensures Placed(u.nodes, p, path, mounts) {
      assert NodeOk(u, p);
      if p in t.nodes {
        assert Placed(t.nodes, p, inner, mounts);
        assert NodeOk(t, p);
        ParentPathTransitive(path, inner, t.nodes[p].path);
      } else {
        assert Placed(u.nodes, p, path, mounts);
      }
    }
  }

  lemma {:induction false} WalkTreePlaces(s: Inotify, path: string, parent: Option<Ptr>, recursive: bool,
          mounts: seq<string>, w: World)
    requires Valid(s) && CanHold(s, parent, path) && NulFree(path)
    ensures NewNodesPlaced(s, WalkTree(s, path, parent, recursive, mounts, w).0, path, mounts)
    decreases if |path| < PATH_MAX then PATH_MAX - |path| else 0, 1, 0
  {
    if !Crosses(path, mounts) && !(recursive && w.opendir(path).NotOpened?) {
      var (t, id) := AddWatch(s, path, parent, w);
      AddWatchGrows(s, path, parent, w);
      assert NewNodesPlaced(s, t, path, mounts);
      if recursive && 0 <= id {
        WalkEntriesPlaces(t, path, id, w.opendir(path).entries, mounts, w);
        WalkEntriesGrows(t, path, id, w.opendir(path).entries, mounts, w);
        PlacementComposes(s, t, WalkEntries(t, path, id, w.opendir(path).entries, mounts, w).0, path, path, mounts);
      }
    }
  }

  lemma {:induction false} WalkEntriesPlaces(s: Inotify, path: string, id: int, entries: seq<Entry>,
          mounts: seq<string>, w: World)
    requires Valid(s) && NulFree(path) && |path| < PATH_MAX
    requires forall e | e in entries :: FileName(e.name)
    requires Watched(s, id, path)
    ensures NewNodesPlaced(s, WalkEntries(s, path, id, entries, mounts, w).0, path, mounts)
    decreases PATH_MAX - |path|, 0, |entries|
  {
    if entries == [] {
    } else if !Followed(path, entries[0], w) {
      WalkEntriesPlaces(s, path, id, entries[1..], mounts, w);
    } else {
      assert entries[0] in entries;
      var n := TableGet(s, id).value;
      var child := Child(path, entries[0].name);
      ChildIsChildOf(path, entries[0].name);
      var (t, sub) := WalkTree(s, child, Some(n), true, mounts, w);
      WalkTreeGrows(s, child, Some(n), true, mounts, w);
      WalkTreePlaces(s, child, Some(n), true, mounts, w);
      if Hard(sub) {
        RemoveAges(t, id);
        PlacementComposes(s, t, Remove(t, id), child, path, mounts);
      } else {
        assert NodeOk(s, n);
        assert NodeOk(t, n);
        WalkEntriesPlaces(t, path, id, entries[1..], mounts, w);
        WalkEntriesGrows(t, path, id, entries[1..], mounts, w);
        PlacementComposes(s, t, WalkEntries(t, path, id, entries[1..], mounts, w).0, child, path, mounts);
      }
    }
  }

  lemma LinkedAfter(s: Inotify, t: Inotify, path: string, mounts: seq<string>)
    requires Valid(s) && Valid(t) && Linked(s) && Ages(s, t) && NewNodesPlaced(s, t, path, mounts)
    ensures Linked(t)
  {
    forall p | p in t.nodes ensures LinkedAt(t.nodes, p) {
      assert NodeOk(t, p);
      if p in s.nodes {
        assert NodeOk(s, p) && LinkedAt(s.nodes, p);
      } else {
        assert Placed(t.nodes, p, path, mounts);
      }
    }
  }
}
