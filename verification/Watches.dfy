/** The watch-node forest of inotify.c: nodes in an explicit heap, indexed by `wd % capacity`. */
module Watches {
  import opened Options
  import opened Posix
  import opened Protocol
  import opened Collections

  const ERR_IGNORE: int := -1
  const ERR_CONTINUE: int := -2
  const ERR_ABORT: int := -3
  const ERR_MISSING: int := -4

  /** An address: the serial number of the allocation. `free` removes the node at it. */
  type Ptr = nat

  datatype Node = Node(wd: nat, path: string, pathLen: nat, parent: Option<Ptr>, kids: seq<Option<Ptr>>)

  /** The static variables of inotify.c, plus three ledgers: the descriptors that the kernel issued for a
      new watch, those handed to inotify_rm_watch, and those that the program refused to take, since
      another node had their slot, and that have no node since. */
  datatype Inotify = Inotify(
    capacity: nat,
    nodes: map<Ptr, Node>,
    table: seq<Option<Ptr>>,
    next: Ptr,
    limitReached: bool,
    out: seq<Output>,
    issued: multiset<nat>,
    released: multiset<nat>,
    strays: set<nat>)

  // ---------- the table ----------

  ghost predicate Shape(s: Inotify) {
    0 < s.capacity == |s.table|
  }

  function TableGet(s: Inotify, key: int): (r: Option<Ptr>)
    requires Shape(s)
    ensures Valid(s) && r.Some? ==>
      r.value in s.nodes && Slot(s.nodes[r.value].wd, s.capacity) == Slot(key, s.capacity)
  {
    assert 0 <= Slot(key, s.capacity) && Valid(s) ==> SlotOk(s, Slot(key, s.capacity));
    TableLookup(s.table, key)
  }

  // ---------- the invariant ----------

  /** No kid is listed twice; blank slots do not matter. */
  ghost predicate DistinctKids(kids: seq<Option<Ptr>>) {
    forall i, j | 0 <= i < j < |kids| && kids[i].Some? :: kids[i] != kids[j]
  }

  ghost predicate KidsOk(nodes: map<Ptr, Node>, p: Ptr)
    requires p in nodes
  {
    var kids := nodes[p].kids;
    && (forall i | 0 <= i < |kids| && kids[i].Some? ::
          && kids[i].value in nodes
          && p < kids[i].value
          && nodes[kids[i].value].parent == Some(p))
    && DistinctKids(kids)
  }

  ghost predicate ParentOk(nodes: map<Ptr, Node>, p: Ptr)
    requires p in nodes
  {
    var parent := nodes[p].parent;
    parent.Some? ==> parent.value in nodes && parent.value < p && Some(p) in nodes[parent.value].kids
  }

  ghost predicate NodeOk(s: Inotify, p: Ptr)
    requires Shape(s) && p in s.nodes
  {
    var n := s.nodes[p];
    && p < s.next
    && n.pathLen == |n.path|
    && NulFree(n.path)
    && s.table[Slot(n.wd, s.capacity)] == Some(p)
    && KidsOk(s.nodes, p)
    && ParentOk(s.nodes, p)
  }

  ghost predicate SlotOk(s: Inotify, k: nat)
    requires Shape(s) && k < |s.table|
  {
    s.table[k].Some? ==> s.table[k].value in s.nodes && Slot(s.nodes[s.table[k].value].wd, s.capacity) == k
  }

  /** Some live node has the descriptor `wd`. */
  ghost predicate Holds(s: Inotify, wd: nat)
    requires Shape(s)
  {
    var k := Slot(wd, s.capacity);
    s.table[k].Some? && s.table[k].value in s.nodes && s.nodes[s.table[k].value].wd == wd
  }

  /** A descriptor was released as often as it was issued, but once less while it has a node or is a stray. */
  ghost predicate Balanced(s: Inotify, wd: nat)
    requires Shape(s)
  {
    && !(Holds(s, wd) && wd in s.strays)
    && s.issued[wd] == s.released[wd] + if Holds(s, wd) || wd in s.strays then 1 else 0
  }

  /** The live nodes form a forest that agrees with the table. */
  ghost predicate Valid(s: Inotify) {
    && Shape(s)
    && (forall wd: nat {:trigger Balanced(s, wd)} :: Balanced(s, wd))
    && (forall k: nat {:trigger SlotOk(s, k)} | k < |s.table| :: SlotOk(s, k))
    && (forall p {:trigger NodeOk(s, p)} | p in s.nodes :: NodeOk(s, p))
  }

  ghost predicate Live(s: Inotify, parent: Option<Ptr>) {
    parent.Some? ==> parent.value in s.nodes
  }

  // ---------- subtrees ----------

  /** `p` is `top` or has it among its ancestors. */
  ghost predicate Under(nodes: map<Ptr, Node>, top: Ptr, p: Ptr)
    decreases p
  {
    || p == top
    || (p in nodes && nodes[p].parent.Some? && nodes[p].parent.value < p && Under(nodes, top, nodes[p].parent.value))
  }

  ghost function Subtree(nodes: map<Ptr, Node>, top: Ptr): set<Ptr> {
    set p | p in nodes && Under(nodes, top, p)
  }

  ghost function WatchesOf(nodes: map<Ptr, Node>, ps: set<Ptr>): multiset<nat> {
    multiset(set p | p in ps && p in nodes :: nodes[p].wd)
  }

  /** The state without the nodes `dead`: freed, their slots cleared, their descriptors released. */
  ghost function Prune(s: Inotify, dead: set<Ptr>): Inotify {
    s.(nodes := s.nodes - dead,
       table := seq(|s.table|, k requires 0 <= k < |s.table| =>
         if s.table[k].Some? && s.table[k].value in dead then None else s.table[k]),
       released := s.released + WatchesOf(s.nodes, dead))
  }

  ghost function Blank(kids: seq<Option<Ptr>>, p: Ptr): (r: seq<Option<Ptr>>)
    ensures |r| == |kids|
    ensures forall i | 0 <= i < |kids| :: r[i] == if kids[i] == Some(p) then None else kids[i]
  {
    seq(|kids|, i requires 0 <= i < |kids| => if kids[i] == Some(p) then None else kids[i])
  }

  ghost function Detach(nodes: map<Ptr, Node>, parent: Option<Ptr>, p: Ptr): map<Ptr, Node> {
    if parent.Some? && parent.value in nodes then
      nodes[parent.value := nodes[parent.value].(kids := Blank(nodes[parent.value].kids, p))]
    else nodes
  }

  /** What `rm_watch(wd, true)` does to a valid forest. */
  ghost function Remove(s: Inotify, wd: int): (r: Inotify)
    requires Valid(s)
    ensures Valid(r) && r.nodes.Keys <= s.nodes.Keys
  {
    match TableGet(s, wd)
    case None => s
    case Some(p) => DropValid(s, p); Drop(s, p)
  }

  ghost function Drop(s: Inotify, p: Ptr): Inotify
    requires p in s.nodes
  {
    var t := Prune(s, Subtree(s.nodes, p));
    t.(nodes := Detach(t.nodes, s.nodes[p].parent, p))
  }

  // ---------- lemmas ----------

  lemma UnderIsNewer(nodes: map<Ptr, Node>, top: Ptr, p: Ptr)
    requires Under(nodes, top, p)
    ensures top <= p
    decreases p
  {
    if p != top { UnderIsNewer(nodes, top, nodes[p].parent.value); }
  }

  lemma DropBalanced(s: Inotify, p: Ptr, wd: nat)
    requires Valid(s) && p in s.nodes
    ensures Balanced(Drop(s, p), wd)
  {
    var t := Drop(s, p);
    var dead := Subtree(s.nodes, p);
    assert Balanced(s, wd);
    if wd in WatchesOf(s.nodes, dead) {
      var q :| q in dead && q in s.nodes && s.nodes[q].wd == wd;
      assert NodeOk(s, q);
    }
    var k := Slot(wd, s.capacity);
    assert SlotOk(s, k);
    if Holds(s, wd) {
      assert s.table[k].value in dead <==> wd in WatchesOf(s.nodes, dead);
    }
  }

  lemma DropValid(s: Inotify, p: Ptr)
    requires Valid(s) && p in s.nodes
    ensures Valid(Drop(s, p))
    ensures Drop(s, p).nodes.Keys == s.nodes.Keys - Subtree(s.nodes, p)
  {
    var t := Drop(s, p);
    forall wd: nat ensures Balanced(t, wd) { DropBalanced(s, p, wd); }
    var dead := Subtree(s.nodes, p);
    var parent := s.nodes[p].parent;
    assert NodeOk(s, p);
    if parent.Some? && parent.value in dead { UnderIsNewer(s.nodes, p, parent.value); }
    assert t.nodes.Keys == s.nodes.Keys - dead;
    forall k: nat | k < |t.table| ensures SlotOk(t, k) {
      assert SlotOk(s, k);
    }
    forall q | q in t.nodes ensures NodeOk(t, q) {
      DropKeepsNode(s, p, q);
    }
  }

  lemma DropKeepsNode(s: Inotify, p: Ptr, q: Ptr)
    requires Valid(s) && p in s.nodes && q in s.nodes && !Under(s.nodes, p, q)
    ensures var t := Drop(s, p); Shape(t) && q in t.nodes && NodeOk(t, q)
  {
    var t := Drop(s, p);
    var dead := Subtree(s.nodes, p);
    assert NodeOk(s, q) && NodeOk(s, p);
    var kids, kids' := s.nodes[q].kids, t.nodes[q].kids;
    forall i | 0 <= i < |kids'| && kids'[i].Some?
      ensures kids[i] == kids'[i] && kids'[i].value !in dead && kids'[i].value in s.nodes
    {
      var c := kids[i].value;
      assert NodeOk(s, c);
    }
    forall i | 0 <= i < |kids'| && kids'[i].Some?
      ensures kids'[i].value in t.nodes && q < kids'[i].value && t.nodes[kids'[i].value].parent == Some(q)
    {
    }
    var parent := s.nodes[q].parent;
    if parent.Some? {
      var i :| 0 <= i < |s.nodes[parent.value].kids| && s.nodes[parent.value].kids[i] == Some(q);
      assert t.nodes[parent.value].kids[i] == Some(q);
    }
  }

  /** Writing to stdout leaves the forest alone. */
  ghost function Emit(s: Inotify, text: seq<Output>): (r: Inotify)
    requires Valid(s)
    ensures Valid(r) && r == s.(out := s.out + text)
  {
    EmitValid(s, s.limitReached, text);
    s.(out := s.out + text)
  }

  lemma EmitValid(s: Inotify, limitReached: bool, text: seq<Output>)
    requires Valid(s)
    ensures Valid(s.(limitReached := limitReached, out := s.out + text))
  {
    var t := s.(limitReached := limitReached, out := s.out + text);
    forall k: nat | k < |t.table| ensures SlotOk(t, k) { assert SlotOk(s, k); }
    forall q | q in t.nodes ensures NodeOk(t, q) { assert NodeOk(s, q); }
    forall x: nat ensures Balanced(t, x) { assert Balanced(s, x); }
  }
}
