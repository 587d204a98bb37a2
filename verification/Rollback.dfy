/** `walk_tree` is all-or-nothing: a hard failure at any depth restores the forest. */
module Rollback {
  import opened Options
  import opened Posix
  import opened Paths
  import opened Watches
  import opened Walk
  import opened WalkGrowth

  ghost predicate NoneBelow(s: Inotify, path: string) {
    forall p | p in s.nodes :: !IsParentPath(path, s.nodes[p].path)
  }

  /** `t` is `s`, but for one more blank slot among the kids of `parent`. */
  ghost predicate Restored(s: Inotify, t: Inotify, parent: Option<Ptr>) {
    && t.table == s.table
    && t.nodes.Keys == s.nodes.Keys
    && forall q | q in s.nodes ::
         || t.nodes[q] == s.nodes[q]
         || (Some(q) == parent && t.nodes[q] == s.nodes[q].(kids := s.nodes[q].kids + [None]))
  }

  /** `t` is `s` with one more tree, whose top is the node at `s.next`, a kid of `parent`. */
  ghost predicate Grown(s: Inotify, t: Inotify, path: string, parent: Option<Ptr>) {
    && s.next in t.nodes
    && t.nodes[s.next].path == path
    && t.nodes[s.next].parent == parent
    && (forall q | q in s.nodes :: q in t.nodes && t.nodes[q] ==
          if Some(q) == parent then s.nodes[q].(kids := s.nodes[q].kids + [Some(s.next)]) else s.nodes[q])
    && (forall q | q in t.nodes && q !in s.nodes :: Under(t.nodes, s.next, q))
  }

  /** The nodes that are not under `n` are the same in `s` and `t`. */
  ghost predicate SameOutside(s: Inotify, t: Inotify, n: Ptr) {
    && s.capacity == t.capacity
    && n in s.nodes && n in t.nodes && s.nodes[n].parent == t.nodes[n].parent
    && forall q | q in s.nodes || q in t.nodes :: SameUnlessUnder(s.nodes, t.nodes, n, q)
  }

  ghost predicate SameUnlessUnder(a: map<Ptr, Node>, b: map<Ptr, Node>, n: Ptr, q: Ptr) {
    || (q in a && q in b && a[q] == b[q])
    || ((q in a ==> Under(a, n, q)) && (q in b ==> Under(b, n, q)))
  }

  lemma SameOutsideDrops(s: Inotify, t: Inotify, n: Ptr)
    requires Valid(s) && Valid(t) && SameOutside(s, t, n)
    ensures Drop(s, n).nodes == Drop(t, n).nodes
    ensures Drop(s, n).table == Drop(t, n).table
  {
    forall q | q in s.nodes || q in t.nodes
      ensures (q in s.nodes && !Under(s.nodes, n, q)) <==> (q in t.nodes && !Under(t.nodes, n, q))
      ensures q in s.nodes && !Under(s.nodes, n, q) ==> s.nodes[q] == t.nodes[q]
    {
      assert SameUnlessUnder(s.nodes, t.nodes, n, q);
      if q in s.nodes && q in t.nodes { SameOutsideUnder(s, t, n, q); }
    }
    assert s.nodes - Subtree(s.nodes, n) == t.nodes - Subtree(t.nodes, n);
    assert Drop(s, n).nodes == Drop(t, n).nodes;
    DropValid(s, n);
    DropValid(t, n);
    SameNodesSameTable(Drop(s, n), Drop(t, n));
  }

  lemma SameOutsideUnder(s: Inotify, t: Inotify, n: Ptr, q: Ptr)
    requires Valid(s) && Valid(t) && SameOutside(s, t, n)
    requires q in s.nodes && q in t.nodes
    ensures Under(s.nodes, n, q) <==> Under(t.nodes, n, q)
    decreases q
  {
    assert SameUnlessUnder(s.nodes, t.nodes, n, q);
    if q != n && s.nodes[q] == t.nodes[q] && s.nodes[q].parent.Some? {
      assert NodeOk(s, q) && NodeOk(t, q);
      SameOutsideUnder(s, t, n, s.nodes[q].parent.value);
    }
  }

  lemma SameNodesSameTable(s: Inotify, t: Inotify)
    requires Valid(s) && Valid(t) && s.capacity == t.capacity && s.nodes == t.nodes
    ensures s.table == t.table
  {
    forall k: nat | k < |s.table| ensures s.table[k] == t.table[k] {
      assert SlotOk(s, k) && SlotOk(t, k);
      if s.table[k].Some? { assert NodeOk(t, s.table[k].value); }
      if t.table[k].Some? { assert NodeOk(s, t.table[k].value); }
    }
  }

  lemma SameOutsideTransitive(s: Inotify, t: Inotify, u: Inotify, n: Ptr)
    requires Valid(s) && Valid(t) && Valid(u) && SameOutside(s, t, n) && SameOutside(t, u, n)
    requires Ages(s, t)
    ensures SameOutside(s, u, n)
  {
    forall q | q in s.nodes || q in u.nodes ensures SameUnlessUnder(s.nodes, u.nodes, n, q) {
      if q in s.nodes || q in t.nodes { assert SameUnlessUnder(s.nodes, t.nodes, n, q); }
      if q in t.nodes || q in u.nodes { assert SameUnlessUnder(t.nodes, u.nodes, n, q); }
      if q in s.nodes && q in t.nodes { SameOutsideUnder(s, t, n, q); }
      if q in t.nodes && q in u.nodes { SameOutsideUnder(t, u, n, q); }
    }
  }

  /** Seen from a node, a walk below it that succeeds, is ignored or fails changes nothing outside it. */
  lemma ChildWalkStaysInside(s: Inotify, t: Inotify, path: string, n: Ptr)
    requires Valid(s) && Valid(t) && Ages(s, t) && n in s.nodes
    requires t == s || Restored(s, t, Some(n)) || Grown(s, t, path, Some(n))
    ensures SameOutside(s, t, n)
  {
    assert NodeOk(s, n);
    forall q | q in s.nodes || q in t.nodes ensures SameUnlessUnder(s.nodes, t.nodes, n, q) {
      if q in t.nodes && q !in s.nodes { UnderTransitive(t.nodes, n, s.next, q); }
    }
  }

  lemma UnderTransitive(nodes: map<Ptr, Node>, a: Ptr, b: Ptr, c: Ptr)
    requires b in nodes && nodes[b].parent == Some(a) && a < b && Under(nodes, b, c)
    ensures Under(nodes, a, c)
    decreases c
  {
    if c != b { UnderTransitive(nodes, a, b, nodes[c].parent.value); }
  }

  lemma OnlyUnderItself(s: Inotify, n: Ptr)
    requires Valid(s) && n in s.nodes && n + 1 == s.next
    ensures Subtree(s.nodes, n) == {n}
  {
    forall q | q in s.nodes && Under(s.nodes, n, q) ensures q == n {
      assert NodeOk(s, q);
      UnderIsNewer(s.nodes, n, q);
    }
  }

  /** Inserting a node and dropping it again restores the forest, up to the blank slot. */
  lemma InsertThenDrop(s: Inotify, wd: nat, path: string, parent: Option<Ptr>)
    requires Valid(s) && Live(s, parent) && NulFree(path) && TableGet(s, wd) == None
    ensures Valid(Insert(s, wd, path, parent))
    ensures Restored(s, Drop(Insert(s, wd, path, parent), s.next), parent)
  {
    InsertValid(s, wd, path, parent);
    var t := Insert(s, wd, path, parent);
    var u := Drop(t, s.next);
    OnlyUnderItself(t, s.next);
    forall q | q in s.nodes ensures q < s.next { assert NodeOk(s, q); }
    forall q | q in s.nodes ensures Some(s.next) !in s.nodes[q].kids { assert NodeOk(s, q); }
    forall k: nat | k < |s.table| ensures u.table[k] == s.table[k] { assert SlotOk(s, k); }
    assert u.table == s.table;
    if parent.Some? {
      var p := parent.value;
      assert u.nodes[p].kids == s.nodes[p].kids + [None];
    }
    assert u.nodes.Keys == s.nodes.Keys;
  }

  lemma GrownFromInside(s: Inotify, wd: nat, path: string, parent: Option<Ptr>, t: Inotify)
    requires Valid(s) && Live(s, parent) && NulFree(path) && TableGet(s, wd) == None
    requires Valid(t) && SameOutside(Insert(s, wd, path, parent), t, s.next) && Extends(Insert(s, wd, path, parent), t)
    ensures Grown(s, t, path, parent)
  {
    InsertValid(s, wd, path, parent);
    var i := Insert(s, wd, path, parent);
    forall q | q in s.nodes
      ensures q in t.nodes && t.nodes[q] == i.nodes[q] && q != s.next
    {
      assert NodeOk(s, q);
      assert SameUnlessUnder(i.nodes, t.nodes, s.next, q);
      if Under(i.nodes, s.next, q) { UnderIsNewer(i.nodes, s.next, q); }
    }
    forall q | q in t.nodes && q !in s.nodes ensures Under(t.nodes, s.next, q) {
      assert SameUnlessUnder(i.nodes, t.nodes, s.next, q);
    }
  }

  lemma NoneBelowChildren(s: Inotify, wd: nat, path: string, parent: Option<Ptr>, name: string)
    requires Valid(s) && Live(s, parent) && NoneBelow(s, path) && s.next !in s.nodes
    ensures NoneBelow(Insert(s, wd, path, parent), Child(path, name))
  {
    var i := Insert(s, wd, path, parent);
    forall p | p in i.nodes ensures !IsParentPath(Child(path, name), i.nodes[p].path) {
      if p in s.nodes && IsParentPath(Child(path, name), s.nodes[p].path) {
        ParentPathTransitive(path, Child(path, name), s.nodes[p].path);
      }
    }
  }

  lemma NoneBelowSibling(s: Inotify, t: Inotify, path: string, x: string, y: string, mounts: seq<string>)
    requires Valid(s) && Valid(t) && FileName(x) && FileName(y) && x != y
    requires Ages(s, t) && NewNodesPlaced(s, t, Child(path, x), mounts) && NoneBelow(s, Child(path, y))
    ensures NoneBelow(t, Child(path, y))
  {
    forall p | p in t.nodes ensures !IsParentPath(Child(path, y), t.nodes[p].path) {
      if p in s.nodes {
        assert NodeOk(s, p);
      } else {
        assert Placed(t.nodes, p, Child(path, x), mounts);
        if IsParentPath(Child(path, y), t.nodes[p].path) { SiblingsDisjoint(path, x, y, t.nodes[p].path); }
      }
    }
  }

  lemma NoneBelowRest(s: Inotify, t: Inotify, path: string, entries: seq<Entry>, mounts: seq<string>)
    requires Valid(s) && Valid(t) && Ages(s, t)
    requires entries != [] && DistinctNames(entries)
    requires forall e | e in entries :: FileName(e.name) && NoneBelow(s, Child(path, e.name))
    requires NewNodesPlaced(s, t, Child(path, entries[0].name), mounts)
    ensures forall e | e in entries[1..] :: FileName(e.name) && NoneBelow(t, Child(path, e.name))
    ensures DistinctNames(entries[1..])
  {
    forall e | e in entries[1..] ensures FileName(e.name) && NoneBelow(t, Child(path, e.name)) {
      var k :| 0 <= k < |entries[1..]| && entries[1..][k] == e;
      assert entries[k + 1] == e;
      NoneBelowSibling(s, t, path, entries[0].name, e.name, mounts);
    }
  }

  /** How a directory's listing ends for the node `n` of the directory. */
  ghost predicate ListedOrDropped(s: Inotify, t: Inotify, n: Ptr, r: int)
    requires n in s.nodes
  {
    if Hard(r) then t.nodes == Drop(s, n).nodes && t.table == Drop(s, n).table else SameOutside(s, t, n)
  }

  lemma ListingComposes(s: Inotify, t: Inotify, u: Inotify, n: Ptr, r: int)
    requires Valid(s) && Valid(t) && Valid(u) && Ages(s, t)
    requires SameOutside(s, t, n) && ListedOrDropped(t, u, n, r)
    ensures ListedOrDropped(s, u, n, r)
  {
    if Hard(r) { SameOutsideDrops(s, t, n); } else { SameOutsideTransitive(s, t, u, n); }
  }

  ghost predicate AllOrNothing(s: Inotify, t: Inotify, path: string, parent: Option<Ptr>, r: int)
    requires Valid(t)
  {
    && (Hard(r) ==> Restored(s, t, parent))
    && (r == ERR_IGNORE ==> t == s)
    && (0 <= r ==> Grown(s, t, path, parent) && Watched(t, r, path) && TableGet(t, r) == Some(s.next))
  }

  lemma AfterListing(s: Inotify, wd: nat, path: string, parent: Option<Ptr>, t: Inotify, r: int)
    requires Valid(s) && Live(s, parent) && NulFree(path) && TableGet(s, wd) == None && s.next !in s.nodes
    requires Valid(Insert(s, wd, path, parent)) && Valid(t)
    requires ListedOrDropped(Insert(s, wd, path, parent), t, s.next, r) && r != ERR_IGNORE
    requires !Hard(r) ==>
      Extends(Insert(s, wd, path, parent), t) && Watched(t, r, path) && TableGet(t, r) == Some(s.next)
    ensures AllOrNothing(s, t, path, parent, r)
  {
    if Hard(r) { InsertThenDrop(s, wd, path, parent); } else { GrownFromInside(s, wd, path, parent, t); }
  }

  /** Started with no live node at or below `path`: a hard failure restores the forest and the
      table, an ignored directory changes nothing, and a success adds one tree and nothing else. */
  lemma {:induction false} WalkIsAllOrNothing(s: Inotify, path: string, parent: Option<Ptr>, recursive: bool,
          mounts: seq<string>, w: World)
    requires Valid(s) && CanHold(s, parent, path) && NulFree(path) && NoneBelow(s, path)
    ensures var (t, r) := WalkTree(s, path, parent, recursive, mounts, w);
      AllOrNothing(s, t, path, parent, r)
    decreases if |path| < PATH_MAX then PATH_MAX - |path| else 0, 1, 0
  {
    if !Crosses(path, mounts) && !(recursive && w.opendir(path).NotOpened?) {
      if w.addWatch(path).Descriptor? && TableGet(s, w.addWatch(path).wd) == None {
        var entries := if recursive then w.opendir(path).entries else [];
        NewDirectoryAllOrNothing(s, path, parent, w.addWatch(path).wd, entries, mounts, w);
      } else {
        NothingAdded(s, path, parent, w);
      }
    }
  }

  /** With no live node at the path, a known descriptor is never descended into. */
  lemma NothingAdded(s: Inotify, path: string, parent: Option<Ptr>, w: World)
    requires Valid(s) && Live(s, parent) && NulFree(path) && NoneBelow(s, path)
    requires w.addWatch(path).Descriptor? ==> TableGet(s, w.addWatch(path).wd).Some?
    ensures var (t, r) := AddWatch(s, path, parent, w);
      r < 0 && AllOrNothing(s, t, path, parent, r)
  {
    assert IsParentPath(path, path);
  }

  /** The listing of a directory that was just added. */
  lemma {:induction false} NewDirectoryAllOrNothing(s: Inotify, path: string, parent: Option<Ptr>, wd: nat,
          entries: seq<Entry>, mounts: seq<string>, w: World)
    requires Valid(s) && CanHold(s, parent, path) && NulFree(path) && |path| < PATH_MAX && NoneBelow(s, path)
    requires TableGet(s, wd) == None && DistinctNames(entries) && forall e | e in entries :: FileName(e.name)
    ensures Valid(Insert(s, wd, path, parent))
    ensures var (t, r) := WalkEntries(Insert(s, wd, path, parent), path, wd, entries, mounts, w);
      AllOrNothing(s, t, path, parent, r)
    decreases PATH_MAX - |path|, 0, |entries| + 1
  {
    InsertValid(s, wd, path, parent);
    InsertGrows(s, wd, path, parent);
    var i := Insert(s, wd, path, parent);
    forall e | e in entries ensures NoneBelow(i, Child(path, e.name)) {
      NoneBelowChildren(s, wd, path, parent, e.name);
    }
    EntriesAllOrNothing(i, path, wd, entries, mounts, w);
    WalkEntriesGrows(i, path, wd, entries, mounts, w);
    var (t, r) := WalkEntries(i, path, wd, entries, mounts, w);
    AfterListing(s, wd, path, parent, t, r);
  }

  lemma {:induction false} EntriesAllOrNothing(s: Inotify, path: string, id: int, entries: seq<Entry>,
          mounts: seq<string>, w: World)
    requires Valid(s) && NulFree(path) && |path| < PATH_MAX
    requires forall e | e in entries :: FileName(e.name) && NoneBelow(s, Child(path, e.name))
    requires DistinctNames(entries)
    requires Watched(s, id, path)
    ensures var (t, r) := WalkEntries(s, path, id, entries, mounts, w);
      ListedOrDropped(s, t, TableGet(s, id).value, r)
    decreases PATH_MAX - |path|, 0, |entries|
  {
    var n := TableGet(s, id).value;
    if entries == [] {
    } else if !Followed(path, entries[0], w) {
      EntriesAllOrNothing(s, path, id, entries[1..], mounts, w);
    } else {
      assert entries[0] in entries;
      var child := Child(path, entries[0].name);
      ChildIsChildOf(path, entries[0].name);
      var (t, sub) := WalkTree(s, child, Some(n), true, mounts, w);
      WalkTreeGrows(s, child, Some(n), true, mounts, w);
      WalkIsAllOrNothing(s, child, Some(n), true, mounts, w);
      ChildWalkStaysInside(s, t, child, n);
      assert NodeOk(s, n) && NodeOk(t, n);
      assert TableGet(t, id) == Some(n);
      if Hard(sub) {
        ListingComposes(s, t, Remove(t, id), n, sub);
      } else {
        WalkTreePlaces(s, child, Some(n), true, mounts, w);
        NoneBelowRest(s, t, path, entries, mounts);
        EntriesAllOrNothing(t, path, id, entries[1..], mounts, w);
        var (u, r) := WalkEntries(t, path, id, entries[1..], mounts, w);
        ListingComposes(s, t, u, n, r);
      }
    }
  }

  // ---------- with live nodes at or below the path ----------

  /** All nodes of `s` that are not at or below `path` live on in `t`, with their descriptor, path and parent,
      and those that are keep them if they live on. */
  ghost predicate Spared(s: Inotify, t: Inotify, path: string) {
    && Ages(s, t)
    && forall q | q in s.nodes ::
      if q in t.nodes then Same(s.nodes[q], t.nodes[q]) else IsParentPath(path, s.nodes[q].path)
  }

  lemma {:induction false} UnderIsBelow(s: Inotify, top: Ptr, p: Ptr)
    requires Valid(s) && Linked(s) && top in s.nodes && p in s.nodes && Under(s.nodes, top, p)
    ensures IsParentPath(s.nodes[top].path, s.nodes[p].path)
    decreases p
  {
    assert NodeOk(s, p) && LinkedAt(s.nodes, p);
    if p != top {
      var up := s.nodes[p].parent.value;
      UnderIsBelow(s, top, up);
      ParentPathTransitive(s.nodes[top].path, s.nodes[up].path, s.nodes[p].path);
    }
  }

  lemma SparedTransitive(s: Inotify, t: Inotify, u: Inotify, inner: string, path: string)
    requires Valid(s) && Valid(t) && Valid(u) && Spared(s, t, inner) && Spared(t, u, path) && IsParentPath(path, inner)
    ensures Spared(s, u, path)
  {
    GrowthComposes(s, t, u);
    forall q | q in s.nodes
      ensures if q in u.nodes then Same(s.nodes[q], u.nodes[q]) else IsParentPath(path, s.nodes[q].path)
    {
      assert NodeOk(s, q);
      if q !in t.nodes { ParentPathTransitive(path, inner, s.nodes[q].path); }
    }
  }

  lemma RemoveSpares(t: Inotify, id: int, path: string)
    requires Valid(t) && Linked(t) && Watched(t, id, path)
    ensures Spared(t, Remove(t, id), path)
  {
    RemoveAges(t, id);
    forall q | q in t.nodes && q !in Remove(t, id).nodes ensures IsParentPath(path, t.nodes[q].path) {
      UnderIsBelow(t, TableGet(t, id).value, q);
    }
  }

  /** However a walk ends, and whatever lived below its root: the nodes elsewhere are spared. */
  lemma {:induction false} WalkSpares(s: Inotify, path: string, parent: Option<Ptr>, recursive: bool,
          mounts: seq<string>, w: World)
    requires Valid(s) && Linked(s) && CanHold(s, parent, path) && NulFree(path)
    ensures Spared(s, WalkTree(s, path, parent, recursive, mounts, w).0, path)
    decreases if |path| < PATH_MAX then PATH_MAX - |path| else 0, 1, 0
  {
    if !Crosses(path, mounts) && !(recursive && w.opendir(path).NotOpened?) {
      var (t, id) := AddWatch(s, path, parent, w);
      AddWatchSpares(s, path, parent, w);
      if recursive && 0 <= id {
        var entries := w.opendir(path).entries;
        EntriesSpare(t, path, id, entries, mounts, w);
        SparedTransitive(s, t, WalkEntries(t, path, id, entries, mounts, w).0, path, path);
      }
    }
  }

  lemma AddWatchSpares(s: Inotify, path: string, parent: Option<Ptr>, w: World)
    requires Valid(s) && Linked(s) && CanHold(s, parent, path) && NulFree(path)
    ensures var (t, id) := AddWatch(s, path, parent, w);
      Spared(s, t, path) && Linked(t) && (0 <= id ==> Watched(t, id, path))
  {
    var t := AddWatch(s, path, parent, w).0;
    AddWatchGrows(s, path, parent, w);
    forall p | p in s.nodes ensures Same(s.nodes[p], t.nodes[p]) { assert NodeOk(s, p); }
    assert NewNodesPlaced(s, t, path, []);
    LinkedAfter(s, t, path, []);
  }

  lemma {:induction false} EntriesSpare(s: Inotify, path: string, id: int, entries: seq<Entry>, mounts: seq<string>,
          w: World)
    requires Valid(s) && Linked(s) && NulFree(path) && |path| < PATH_MAX && Watched(s, id, path)
    requires forall e | e in entries :: FileName(e.name)
    ensures Spared(s, WalkEntries(s, path, id, entries, mounts, w).0, path)
    decreases PATH_MAX - |path|, 0, |entries|
  {
    if entries == [] {
    } else if !Followed(path, entries[0], w) {
      EntriesSpare(s, path, id, entries[1..], mounts, w);
    } else {
      assert entries[0] in entries;
      var n := TableGet(s, id).value;
      var child := Child(path, entries[0].name);
      ChildIsChildOf(path, entries[0].name);
      var (t, sub) := WalkTree(s, child, Some(n), true, mounts, w);
      WalkSpares(s, child, Some(n), true, mounts, w);
      ChildWalked(s, path, id, child, n, mounts, w);
      if Hard(sub) {
        RemoveSpares(t, id, path);
        SparedTransitive(s, t, Remove(t, id), child, path);
      } else {
        EntriesSpare(t, path, id, entries[1..], mounts, w);
        SparedTransitive(s, t, WalkEntries(t, path, id, entries[1..], mounts, w).0, child, path);
      }
    }
  }

  /** Even if the walk of a child fails hard, the directory's own node is still there to be removed. */
  lemma ChildWalked(s: Inotify, path: string, id: int, child: string, n: Ptr, mounts: seq<string>, w: World)
    requires Valid(s) && Linked(s) && Watched(s, id, path) && TableGet(s, id) == Some(n)
    requires NulFree(child) && IsChildOf(path, child)
    requires Spared(s, WalkTree(s, child, Some(n), true, mounts, w).0, child)
    ensures var (t, sub) := WalkTree(s, child, Some(n), true, mounts, w);
      Linked(t) && Watched(t, id, path)
  {
    var (t, sub) := WalkTree(s, child, Some(n), true, mounts, w);
    WalkTreeGrows(s, child, Some(n), true, mounts, w);
    WalkTreePlaces(s, child, Some(n), true, mounts, w);
    LinkedAfter(s, t, child, mounts);
    assert n in t.nodes;
    assert NodeOk(s, n) && NodeOk(t, n);
  }
}
