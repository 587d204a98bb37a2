/** Removing a subtree kid by kid: the facts behind the recursion of `rm_watch`. */
module Pruning {
  import opened Options
  import opened Collections
  import opened Watches

  /** The subtrees of the first `i` of `kids`. */
  ghost function KidTrees(nodes: map<Ptr, Node>, kids: seq<Option<Ptr>>, i: nat): set<Ptr>
    requires i <= |kids|
  {
    set q | q in nodes && InKidTree(nodes, kids, i, q)
  }

  ghost predicate InKidTree(nodes: map<Ptr, Node>, kids: seq<Option<Ptr>>, i: nat, q: Ptr)
    requires i <= |kids|
  {
    exists j :: 0 <= j < i && kids[j].Some? && Under(nodes, kids[j].value, q)
  }

  /** `t` is `base` without the nodes `dead`, up to the ledger of released descriptors. */
  ghost predicate PrunedTo(base: Inotify, t: Inotify, dead: set<Ptr>) {
    t == Prune(base, dead).(released := t.released)
  }

  lemma KidTreesStep(s: Inotify, p: Ptr, i: nat)
    requires Valid(s) && p in s.nodes && i < |s.nodes[p].kids|
    ensures var kids := s.nodes[p].kids;
      KidTrees(s.nodes, kids, i + 1) == KidTrees(s.nodes, kids, i) +
        if kids[i].Some? then Subtree(s.nodes, kids[i].value) else {}
  {
    var kids := s.nodes[p].kids;
    forall q | q in s.nodes
      ensures InKidTree(s.nodes, kids, i + 1, q) <==>
        InKidTree(s.nodes, kids, i, q) || (kids[i].Some? && Under(s.nodes, kids[i].value, q))
    {
    }
  }

  lemma SiblingTreesDisjoint(s: Inotify, p: Ptr, i: nat)
    requires Valid(s) && p in s.nodes && i < |s.nodes[p].kids| && s.nodes[p].kids[i].Some?
    ensures var k := s.nodes[p].kids[i].value;
      && k in s.nodes && p < k
      && Subtree(s.nodes, k) <= Subtree(s.nodes, p) - {p}
      && Subtree(s.nodes, k) !! KidTrees(s.nodes, s.nodes[p].kids, i)
  {
    assert NodeOk(s, p);
    var kids := s.nodes[p].kids;
    var k := kids[i].value;
    forall q | q in s.nodes && Under(s.nodes, k, q)
      ensures Under(s.nodes, p, q) && q != p && !InKidTree(s.nodes, kids, i, q)
    {
      UnderIsNewer(s.nodes, k, q);
      UnderParent(s, k, q);
      forall j | 0 <= j < i && kids[j].Some? ensures !Under(s.nodes, kids[j].value, q) {
        if Under(s.nodes, kids[j].value, q) { SiblingsMeet(s, p, kids[j].value, k, q); }
      }
    }
  }

  lemma UnderParent(s: Inotify, k: Ptr, q: Ptr)
    requires Valid(s) && k in s.nodes && s.nodes[k].parent.Some? && Under(s.nodes, k, q)
    ensures Under(s.nodes, s.nodes[k].parent.value, q)
    decreases q
  {
    assert NodeOk(s, k);
    if q != k { UnderParent(s, k, s.nodes[q].parent.value); }
  }

  lemma SiblingsMeet(s: Inotify, p: Ptr, a: Ptr, b: Ptr, q: Ptr)
    requires Valid(s) && a in s.nodes && b in s.nodes && p < a && p < b
    requires s.nodes[a].parent == Some(p) && s.nodes[b].parent == Some(p)
    requires Under(s.nodes, a, q) && Under(s.nodes, b, q)
    ensures a == b
    decreases q
  {
    if q == a {
      if q != b { UnderIsNewer(s.nodes, b, p); }
    } else if q == b {
      UnderIsNewer(s.nodes, a, p);
    } else {
      SiblingsMeet(s, p, a, b, s.nodes[q].parent.value);
    }
  }

  /** A subtree is its top and the subtrees of the kids. */
  lemma SubtreeIsKidTrees(s: Inotify, p: Ptr)
    requires Valid(s) && p in s.nodes
    ensures Subtree(s.nodes, p) == {p} + KidTrees(s.nodes, s.nodes[p].kids, |s.nodes[p].kids|)
  {
    var kids := s.nodes[p].kids;
    forall q | q in s.nodes && Under(s.nodes, p, q) && q != p ensures InKidTree(s.nodes, kids, |kids|, q) {
      UnderSomeKid(s, p, q);
    }
    forall q | q in s.nodes && InKidTree(s.nodes, kids, |kids|, q) ensures Under(s.nodes, p, q) {
      var j :| 0 <= j < |kids| && kids[j].Some? && Under(s.nodes, kids[j].value, q);
      assert NodeOk(s, p);
      UnderParent(s, kids[j].value, q);
    }
  }

  lemma UnderSomeKid(s: Inotify, p: Ptr, q: Ptr)
    requires Valid(s) && p in s.nodes && q in s.nodes && Under(s.nodes, p, q) && q != p
    ensures InKidTree(s.nodes, s.nodes[p].kids, |s.nodes[p].kids|, q)
    decreases q
  {
    assert NodeOk(s, q);
    var up := s.nodes[q].parent.value;
    var kids := s.nodes[p].kids;
    if up == p {
      var j :| 0 <= j < |kids| && kids[j] == Some(q);
      assert Under(s.nodes, kids[j].value, q);
    } else {
      UnderSomeKid(s, p, up);
      var j :| 0 <= j < |kids| && kids[j].Some? && Under(s.nodes, kids[j].value, up);
      assert Under(s.nodes, kids[j].value, q);
    }
  }

  lemma WatchesSplit(s: Inotify, a: set<Ptr>, b: set<Ptr>)
    requires Valid(s) && a !! b && a + b <= s.nodes.Keys
    ensures WatchesOf(s.nodes, a + b) == WatchesOf(s.nodes, a) + WatchesOf(s.nodes, b)
  {
    var x, y := set p | p in a && p in s.nodes :: s.nodes[p].wd, set p | p in b && p in s.nodes :: s.nodes[p].wd;
    forall p, q | p in a && q in b ensures s.nodes[p].wd != s.nodes[q].wd {
      assert NodeOk(s, p) && NodeOk(s, q);
    }
    assert (set p | p in a + b && p in s.nodes :: s.nodes[p].wd) == x + y;
    assert x !! y;
  }

  lemma WatchOfOne(nodes: map<Ptr, Node>, p: Ptr)
    requires p in nodes
    ensures WatchesOf(nodes, {p}) == multiset{nodes[p].wd}
  {
    assert (set q | q in {p} && q in nodes :: nodes[q].wd) == {nodes[p].wd};
  }

  /** `rm_watch(wd, true)` frees exactly the node in the slot and its descendants, clears exactly their
      slots, and elsewhere only blanks one slot of the parent. */
  lemma RemoveIsExact(s: Inotify, wd: int, p: Ptr)
    requires Valid(s) && TableGet(s, wd) == Some(p)
    ensures var t := Remove(s, wd);
      && (forall q :: q in t.nodes <==> q in s.nodes && !Under(s.nodes, p, q))
      && (forall q | q in t.nodes :: t.nodes[q] == s.nodes[q]
            || (s.nodes[p].parent == Some(q) && t.nodes[q] == s.nodes[q].(kids := Blank(s.nodes[q].kids, p))))
      && (forall k | 0 <= k < |s.table| ::
            t.table[k] == if s.table[k].Some? && Under(s.nodes, p, s.table[k].value) then None else s.table[k])
  {
    DropValid(s, p);
    forall k: nat | k < |s.table| ensures s.table[k].Some? ==> s.table[k].value in s.nodes { assert SlotOk(s, k); }
  }

  /** And it hands each of their descriptors to the kernel exactly once, and no other. */
  lemma RemoveReleasesOnce(s: Inotify, wd: int, p: Ptr, x: nat)
    requires Valid(s) && TableGet(s, wd) == Some(p)
    ensures Remove(s, wd).released[x] ==
      s.released[x] + if exists q :: q in Subtree(s.nodes, p) && s.nodes[q].wd == x then 1 else 0
  {
    var wds := set q | q in Subtree(s.nodes, p) && q in s.nodes :: s.nodes[q].wd;
    assert WatchesOf(s.nodes, Subtree(s.nodes, p)) == multiset(wds);
    assert x in wds <==> exists q :: q in Subtree(s.nodes, p) && s.nodes[q].wd == x;
  }

  // ---------- the state inside `rm_watch` ----------

  /** `s` is `base` without the nodes `dead` and the subtrees of the first `i` kids of `p`;
      the descriptors of `p` and of those subtrees were released on top of `was`. */
  ghost predicate Removing(base: Inotify, s: Inotify, p: Ptr, i: nat, dead: set<Ptr>, was: multiset<nat>)
    requires p in base.nodes && i <= |base.nodes[p].kids|
  {
    var gone := KidTrees(base.nodes, base.nodes[p].kids, i);
    && PrunedTo(base, s, dead + gone)
    && s.released == was + multiset{base.nodes[p].wd} + WatchesOf(base.nodes, gone)
    && p !in dead + gone
  }

  /** The precondition of `rm_watch`: the node in the slot of `wd` has its whole subtree alive. */
  ghost predicate Removable(base: Inotify, s: Inotify, wd: int, dead: set<Ptr>) {
    && Valid(base) && PrunedTo(base, s, dead)
    && (TableGet(s, wd).Some? ==> Subtree(base.nodes, TableGet(s, wd).value) !! dead)
  }

  /** What `rm_watch` does to `s`, for each of its two ways of being called. */
  ghost predicate Removed(base: Inotify, s: Inotify, t: Inotify, wd: int, updateParent: bool, dead: set<Ptr>)
    requires Removable(base, s, wd, dead)
  {
    match TableGet(s, wd)
    case None => t == s
    case Some(p) =>
      && p in base.nodes
      && t.released == s.released + WatchesOf(base.nodes, Subtree(base.nodes, p))
      && if updateParent then t == Drop(base, p).(released := t.released)
        else PrunedTo(base, t, dead + Subtree(base.nodes, p))
  }

  lemma FoundAlive(base: Inotify, s: Inotify, wd: int, dead: set<Ptr>)
    requires Removable(base, s, wd, dead) && TableGet(s, wd).Some?
    ensures var p := TableGet(s, wd).value;
      && p in base.nodes && p !in dead && p in s.nodes && s.nodes[p] == base.nodes[p] && p < base.next
      && 0 <= Slot(wd, s.capacity) == Slot(base.nodes[p].wd, base.capacity)
  {
    var p := TableGet(s, wd).value;
    assert TableGet(base, wd) == Some(p);
    assert NodeOk(base, p);
    assert Under(base.nodes, p, p);
  }

  lemma RemovingStart(base: Inotify, s: Inotify, wd: int, dead: set<Ptr>)
    requires Removable(base, s, wd, dead) && TableGet(s, wd).Some? && TableGet(s, wd).value in base.nodes
    ensures var p := TableGet(s, wd).value;
      Removing(base, s.(released := s.released + multiset{base.nodes[p].wd}), p, 0, dead, s.released)
  {
    FoundAlive(base, s, wd, dead);
    var p := TableGet(s, wd).value;
    assert KidTrees(base.nodes, base.nodes[p].kids, 0) == {};
    assert dead + {} == dead;
    assert WatchesOf(base.nodes, {}) == multiset{};
  }

  lemma KidRemovable(base: Inotify, s: Inotify, p: Ptr, i: nat, dead: set<Ptr>, was: multiset<nat>)
    requires Valid(base) && p in base.nodes && Subtree(base.nodes, p) !! dead
    requires i < |base.nodes[p].kids| && base.nodes[p].kids[i].Some?
    requires Removing(base, s, p, i, dead, was)
    ensures var k := base.nodes[p].kids[i].value;
      && p < k && k in base.nodes && k in s.nodes && s.nodes[k] == base.nodes[k]
      && TableGet(s, s.nodes[k].wd) == Some(k)
      && Removable(base, s, s.nodes[k].wd, dead + KidTrees(base.nodes, base.nodes[p].kids, i))
  {
    SiblingTreesDisjoint(base, p, i);
    var k := base.nodes[p].kids[i].value;
    assert NodeOk(base, k);
    assert k in Subtree(base.nodes, k);
  }

  lemma RemovingStep(base: Inotify, s: Inotify, t: Inotify, p: Ptr, i: nat, dead: set<Ptr>, was: multiset<nat>)
    requires Valid(base) && p in base.nodes && i < |base.nodes[p].kids|
    requires Removing(base, s, p, i, dead, was)
    requires match base.nodes[p].kids[i]
      case None => t == s
      case Some(k) =>
        && PrunedTo(base, t, dead + KidTrees(base.nodes, base.nodes[p].kids, i) + Subtree(base.nodes, k))
        && t.released == s.released + WatchesOf(base.nodes, Subtree(base.nodes, k))
    ensures Removing(base, t, p, i + 1, dead, was)
  {
    KidTreesStep(base, p, i);
    var kids := base.nodes[p].kids;
    var gone := KidTrees(base.nodes, kids, i);
    if kids[i].Some? {
      SiblingTreesDisjoint(base, p, i);
      WatchesSplit(base, gone, Subtree(base.nodes, kids[i].value));
      assert dead + gone + Subtree(base.nodes, kids[i].value) == dead + KidTrees(base.nodes, kids, i + 1);
    } else {
      assert gone == KidTrees(base.nodes, kids, i + 1);
    }
  }

  /** `s` after blanking the slot of `p` in its parent if asked to, freeing `p` and clearing slot `k`. */
  ghost function Freed(s: Inotify, p: Ptr, updateParent: bool, k: nat): Inotify
    requires Shape(s) && p in s.nodes && k < s.capacity
  {
    s.(nodes := (if updateParent then Detach(s.nodes, s.nodes[p].parent, p) else s.nodes) - {p},
       table := s.table[k := None])
  }

  lemma FreedAfterKids(base: Inotify, s: Inotify, p: Ptr, dead: set<Ptr>, was: multiset<nat>)
    requires Valid(base) && p in base.nodes && Removing(base, s, p, |base.nodes[p].kids|, dead, was)
    ensures var tree := Subtree(base.nodes, p);
      && Shape(s) && p in s.nodes
      && PrunedTo(base, Freed(s, p, false, Slot(base.nodes[p].wd, s.capacity)), dead + tree)
      && s.released == was + WatchesOf(base.nodes, tree)
  {
    var tree := Subtree(base.nodes, p);
    var gone := KidTrees(base.nodes, base.nodes[p].kids, |base.nodes[p].kids|);
    SubtreeIsKidTrees(base, p);
    assert p !in gone;
    WatchesSplit(base, {p}, gone);
    WatchOfOne(base.nodes, p);
    assert NodeOk(base, p);
    var t := Freed(s, p, false, Slot(base.nodes[p].wd, s.capacity));
    assert dead + tree == dead + gone + {p};
    assert t.nodes == base.nodes - (dead + tree);
    forall k: nat | k < |t.table| ensures t.table[k] == Prune(base, dead + tree).table[k] {
      assert SlotOk(base, k);
    }
  }

  /** After the kids of `p`: blanking, freeing and clearing complete the removal. */
  lemma RemovingEnd(base: Inotify, s0: Inotify, s: Inotify, wd: int, updateParent: bool, p: Ptr, dead: set<Ptr>)
    requires Removable(base, s0, wd, dead) && TableGet(s0, wd) == Some(p) && p in base.nodes
    requires Removing(base, s, p, |base.nodes[p].kids|, dead, s0.released)
    requires updateParent ==> dead == {}
    ensures Shape(s) && p in s.nodes && 0 <= Slot(wd, s.capacity)
    ensures Removed(base, s0, Freed(s, p, updateParent, Slot(wd, s.capacity)), wd, updateParent, dead)
  {
    FreedAfterKids(base, s, p, dead, s0.released);
    FoundAlive(base, s0, wd, dead);
    if updateParent {
      var k := Slot(wd, s.capacity);
      var t, u := Freed(s, p, false, k), Freed(s, p, true, k);
      var parent := base.nodes[p].parent;
      assert NodeOk(base, p);
      assert {} + Subtree(base.nodes, p) == Subtree(base.nodes, p);
      if parent.Some? {
        if parent.value in Subtree(base.nodes, p) { UnderIsNewer(base.nodes, p, parent.value); }
        assert u.nodes == Detach(t.nodes, parent, p);
      }
    }
  }

  lemma ParentBlankable(base: Inotify, s: Inotify, p: Ptr, was: multiset<nat>)
    requires Valid(base) && p in base.nodes && Removing(base, s, p, |base.nodes[p].kids|, {}, was)
    requires base.nodes[p].parent.Some?
    ensures var q := base.nodes[p].parent.value;
      && q in s.nodes
      && DistinctKids(s.nodes[q].kids)
  {
    assert NodeOk(base, p);
    var q := base.nodes[p].parent.value;
    assert NodeOk(base, q);
    SubtreeIsKidTrees(base, p);
    if q in Subtree(base.nodes, p) { UnderIsNewer(base.nodes, p, q); }
  }

  /** With nothing freed yet, any descriptor can be removed. */
  lemma NothingPruned(s: Inotify, wd: int)
    requires Valid(s)
    ensures Removable(s, s, wd, {})
  {
    assert s.nodes - {} == s.nodes;
    assert Prune(s, {}).table == s.table;
  }

  lemma RemovedIsRemove(s: Inotify, t: Inotify, wd: int)
    requires Valid(s) && Removable(s, s, wd, {}) && Removed(s, s, t, wd, true, {})
    ensures t == Remove(s, wd)
  {
  }

  /** `rm_watch(kid, false)` and blanking the kid's slot by index remove the kid as `rm_watch(kid, true)` would. */
  lemma BlankInParent(s: Inotify, t: Inotify, p: Ptr, i: nat)
    requires Valid(s) && p in s.nodes && i < |s.nodes[p].kids| && s.nodes[p].kids[i].Some?
    requires s.nodes[p].kids[i].value in s.nodes
    requires PrunedTo(s, t, {} + Subtree(s.nodes, s.nodes[p].kids[i].value))
    requires t.released == s.released + WatchesOf(s.nodes, Subtree(s.nodes, s.nodes[p].kids[i].value))
    ensures p in t.nodes && t.nodes[p] == s.nodes[p]
    ensures t.(nodes := t.nodes[p := t.nodes[p].(kids := t.nodes[p].kids[i := None])]) ==
      Drop(s, s.nodes[p].kids[i].value)
  {
    var k := s.nodes[p].kids[i].value;
    assert NodeOk(s, p);
    if p in Subtree(s.nodes, k) { UnderIsNewer(s.nodes, k, p); }
    assert {} + Subtree(s.nodes, k) == Subtree(s.nodes, k);
    assert t.nodes[p].kids[i := None] == Blank(t.nodes[p].kids, k);
  }
}
