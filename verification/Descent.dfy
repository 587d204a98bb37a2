/** Why `walk_tree` ends on every finite directory graph, links and cycles included: each directory
    it lists either uses up a descriptor not watched before, or is the path of a node that lived
    already. Here paths may have any length. */
module Descent {
  import opened Options
  import opened Posix
  import opened Paths
  import opened Collections
  import opened Watches
  import opened Walk
  import opened WalkGrowth

  // ---------- the walk on a budget, over answers without a bound on paths ----------

  /** How a walk ended, and what is left of its budget. */
  datatype Outcome = Ended(s: Inotify, result: int, left: nat) | OutOfBudget

  /** `walk_tree` with a budget of directories to list. */
  ghost function Walked(s: Inotify, path: string, parent: Option<Ptr>, mounts: seq<string>, a: Answers,
          budget: nat): (r: Outcome)
    requires Valid(s) && Live(s, parent) && NulFree(path) && Named(a)
    ensures r.Ended? ==> Valid(r.s) && r.left <= budget
    decreases budget, 0, 0
  {
    if Crosses(path, mounts) then Ended(s, ERR_IGNORE, budget)
    else if a.opendir(path).NotOpened? then Ended(s, OpenCode(a.opendir(path).openErr), budget)
    else
      var (t, id) := AddWatch(s, path, parent, a);
      if id < 0 then Ended(t, id, budget)
      else if budget == 0 then OutOfBudget
      else WalkedEntries(t, path, id, a.opendir(path).entries, mounts, a, budget - 1)
  }

  ghost function WalkedEntries(s: Inotify, path: string, id: int, entries: seq<Entry>, mounts: seq<string>,
          a: Answers, budget: nat): (r: Outcome)
    requires Valid(s) && NulFree(path) && Named(a)
    requires forall e | e in entries :: FileName(e.name)
    ensures r.Ended? ==> Valid(r.s) && r.left <= budget
    decreases budget, 1, |entries|
  {
    if entries == [] then Ended(s, id, budget)
    else if !Followed(path, entries[0], a) then WalkedEntries(s, path, id, entries[1..], mounts, a, budget)
    else
      assert entries[0] in entries;
      match Walked(s, Child(path, entries[0].name), TableGet(s, id), mounts, a, budget)
      case OutOfBudget => OutOfBudget
      case Ended(t, sub, left) =>
        if Hard(sub) then Ended(Remove(t, id), sub, left)
        else WalkedEntries(t, path, id, entries[1..], mounts, a, left)
  }

  /** Where the answers are the kernel's, a budget that suffices changes nothing. */
  lemma {:induction false} BudgetedIsWalkTree(s: Inotify, path: string, parent: Option<Ptr>, mounts: seq<string>,
          w: World, budget: nat)
    requires Valid(s) && Live(s, parent) && NulFree(path)
    ensures var r := Walked(s, path, parent, mounts, w, budget);
      r.Ended? ==> WalkTree(s, path, parent, true, mounts, w) == (r.s, r.result)
    decreases budget, 0, 0
  {
    if !Crosses(path, mounts) && w.opendir(path).Opened? {
      var (t, id) := AddWatch(s, path, parent, w);
      if 0 <= id && 0 < budget {
        BudgetedIsWalkEntries(t, path, id, w.opendir(path).entries, mounts, w, budget - 1);
      }
    }
  }

  lemma {:induction false} BudgetedIsWalkEntries(s: Inotify, path: string, id: int, entries: seq<Entry>,
          mounts: seq<string>, w: World, budget: nat)
    requires Valid(s) && NulFree(path) && |path| < PATH_MAX
    requires forall e | e in entries :: FileName(e.name)
    ensures var r := WalkedEntries(s, path, id, entries, mounts, w, budget);
      r.Ended? ==> WalkEntries(s, path, id, entries, mounts, w) == (r.s, r.result)
    decreases budget, 1, |entries|
  {
    if entries != [] {
      if !Followed(path, entries[0], w) {
        BudgetedIsWalkEntries(s, path, id, entries[1..], mounts, w, budget);
      } else {
        assert entries[0] in entries;
        var child := Child(path, entries[0].name);
        BudgetedIsWalkTree(s, child, TableGet(s, id), mounts, w, budget);
        var r := Walked(s, child, TableGet(s, id), mounts, w, budget);
        if r.Ended? && !Hard(r.result) {
          BudgetedIsWalkEntries(r.s, path, id, entries[1..], mounts, w, r.left);
        }
      }
    }
  }

  // ---------- the measure ----------

  /** The kernel issues no descriptor outside the finite set `ds`. */
  ghost predicate Issues(a: Answers, ds: set<nat>) {
    forall p | a.addWatch(p).Descriptor? :: a.addWatch(p).wd in ds
  }

  ghost function Unwatched(s: Inotify, ds: set<nat>): set<nat>
    requires Shape(s)
  {
    set d | d in ds && !Holds(s, d)
  }

  ghost function Below(s: Inotify, path: string): set<Ptr> {
    set q | q in s.nodes && IsParentPath(path, s.nodes[q].path)
  }

  ghost predicate BelowSome(path: string, entries: seq<Entry>, p: string) {
    exists e :: e in entries && IsParentPath(Child(path, e.name), p)
  }

  ghost function BelowEntries(s: Inotify, path: string, entries: seq<Entry>): set<Ptr> {
    set q | q in s.nodes && BelowSome(path, entries, s.nodes[q].path)
  }

  lemma SubsetSize<T>(a: set<T>, b: set<T>)
    requires a <= b
    ensures |a| <= |b|
  {
    assert b == a + (b - a);
  }

  lemma UnwatchedShrinks(s: Inotify, t: Inotify, ds: set<nat>)
    requires Valid(s) && Valid(t) && Extends(s, t)
    ensures |Unwatched(t, ds)| <= |Unwatched(s, ds)|
  {
    forall d | d in ds && Holds(s, d) ensures Holds(t, d) {
      var q := s.table[Slot(d, s.capacity)].value;
      assert NodeOk(s, q) && NodeOk(t, q);
    }
    SubsetSize(Unwatched(t, ds), Unwatched(s, ds));
  }

  lemma BelowEntriesAreBelow(s: Inotify, path: string, entries: seq<Entry>, q: Ptr)
    requires q in BelowEntries(s, path, entries)
    ensures q in Below(s, path) && s.nodes[q].path != path
  {
    var e :| e in entries && IsParentPath(Child(path, e.name), s.nodes[q].path);
    ParentPathTransitive(path, Child(path, e.name), s.nodes[q].path);
  }

  /** Listing a new directory costs an unwatched descriptor. */
  lemma NewListingIsPaid(s: Inotify, path: string, parent: Option<Ptr>, wd: nat, entries: seq<Entry>, ds: set<nat>)
    requires Valid(s) && Live(s, parent) && NulFree(path) && TableGet(s, wd) == None && wd in ds
    ensures var t := Insert(s, wd, path, parent);
      Shape(t) && 1 + |Unwatched(t, ds)| + |BelowEntries(t, path, entries)| <= |Unwatched(s, ds)| + |Below(s, path)|
  {
    var t := Insert(s, wd, path, parent);
    InsertGrows(s, wd, path, parent);
    forall q | q in BelowEntries(t, path, entries) ensures q in Below(s, path) {
      BelowEntriesAreBelow(t, path, entries, q);
    }
    SubsetSize(BelowEntries(t, path, entries), Below(s, path));
    assert !Holds(s, wd) && Holds(t, wd);
    forall d | d in ds && Holds(s, d) ensures Holds(t, d) {}
    SubsetSize(Unwatched(t, ds), Unwatched(s, ds) - {wd});
  }

  /** Listing a watched directory costs the node at its path. */
  lemma KnownListingIsPaid(s: Inotify, path: string, wd: nat, entries: seq<Entry>)
    requires Valid(s) && Watched(s, wd, path)
    ensures 1 + |BelowEntries(s, path, entries)| <= |Below(s, path)|
  {
    var q := TableGet(s, wd).value;
    forall p | p in BelowEntries(s, path, entries) ensures p in Below(s, path) - {q} {
      BelowEntriesAreBelow(s, path, entries, p);
    }
    assert IsParentPath(path, path);
    SubsetSize(BelowEntries(s, path, entries), Below(s, path) - {q});
  }

  lemma ListingIsPaid(s: Inotify, path: string, parent: Option<Ptr>, a: Answers, entries: seq<Entry>, ds: set<nat>)
    requires Valid(s) && Live(s, parent) && NulFree(path) && Issues(a, ds)
    requires 0 <= AddWatch(s, path, parent, a).1
    ensures var t := AddWatch(s, path, parent, a).0;
      1 + |Unwatched(t, ds)| + |BelowEntries(t, path, entries)| <= |Unwatched(s, ds)| + |Below(s, path)|
  {
    var wd := a.addWatch(path).wd;
    if TableGet(s, wd) == None {
      NewListingIsPaid(s, path, parent, wd, entries, ds);
    } else {
      KnownListingIsPaid(s, path, wd, entries);
    }
  }

  lemma BelowFirst(s: Inotify, path: string, entries: seq<Entry>)
    requires entries != []
    ensures |Below(s, Child(path, entries[0].name))| <= |BelowEntries(s, path, entries)|
    ensures |BelowEntries(s, path, entries[1..])| <= |BelowEntries(s, path, entries)|
  {
    assert entries[0] in entries;
    SubsetSize(Below(s, Child(path, entries[0].name)), BelowEntries(s, path, entries));
    SubsetSize(BelowEntries(s, path, entries[1..]), BelowEntries(s, path, entries));
  }

  /** Every new node is at or below `path`. */
  ghost predicate NewBelow(s: Inotify, t: Inotify, path: string) {
    forall p | p in t.nodes && p !in s.nodes :: IsParentPath(path, t.nodes[p].path)
  }

  lemma BelowFirstAndRest(s: Inotify, t: Inotify, path: string, entries: seq<Entry>)
    requires Valid(s) && Valid(t) && Extends(s, t) && entries != [] && DistinctNames(entries)
    requires forall e | e in entries :: FileName(e.name)
    requires NewBelow(s, t, Child(path, entries[0].name))
    ensures |Below(s, Child(path, entries[0].name))| + |BelowEntries(t, path, entries[1..])| <=
      |BelowEntries(s, path, entries)|
  {
    var child := Child(path, entries[0].name);
    var first, rest := Below(s, child), BelowEntries(t, path, entries[1..]);
    assert entries[0] in entries;
    forall q | q in rest ensures q in s.nodes && BelowSome(path, entries, s.nodes[q].path) && q !in first {
      var e :| e in entries[1..] && IsParentPath(Child(path, e.name), t.nodes[q].path);
      var k :| 0 <= k < |entries[1..]| && entries[1..][k] == e;
      assert entries[k + 1] == e && e in entries;
      if q !in s.nodes {
        SiblingsDisjoint(path, entries[0].name, e.name, t.nodes[q].path);
      } else {
        assert NodeOk(s, q);
        if q in first { SiblingsDisjoint(path, entries[0].name, e.name, t.nodes[q].path); }
      }
    }
    SubsetSize(first + rest, BelowEntries(s, path, entries));
  }

  /** The walk ends; unless it fails hard, it has only added nodes below `path`, and the directories it listed
      and the descriptors it left unwatched are at most `limit`. */
  ghost predicate EndsWithin(s: Inotify, r: Outcome, path: string, ds: set<nat>, budget: nat, limit: nat) {
    && r.Ended?
    && (!Hard(r.result) ==>
          && Valid(r.s) && Extends(s, r.s) && NewBelow(s, r.s, path)
          && budget - r.left + |Unwatched(r.s, ds)| <= limit)
  }

  /** A budget of as many directories as there are unwatched descriptors and live nodes at or below the
      root of the walk is never used up, for paths of any length. */
  lemma {:induction false} WalkEnds(s: Inotify, path: string, parent: Option<Ptr>, mounts: seq<string>, a: Answers,
          ds: set<nat>, budget: nat)
    requires Valid(s) && Live(s, parent) && NulFree(path) && Named(a) && Issues(a, ds)
    requires |Unwatched(s, ds)| + |Below(s, path)| <= budget
    ensures EndsWithin(s, Walked(s, path, parent, mounts, a, budget), path, ds, budget,
      |Unwatched(s, ds)| + |Below(s, path)|)
    decreases budget, 0, 0
  {
    if !Crosses(path, mounts) && a.opendir(path).Opened? {
      var (t, id) := AddWatch(s, path, parent, a);
      if id < 0 {
        AddWatchBelow(s, path, parent, a);
        UnwatchedShrinks(s, t, ds);
      } else {
        var entries := a.opendir(path).entries;
        ListingIsPaid(s, path, parent, a, entries, ds);
        EntriesEnd(t, path, id, entries, mounts, a, ds, budget - 1);
        var limit := |Unwatched(t, ds)| + |BelowEntries(t, path, entries)|;
        ListedWithin(s, path, parent, a, WalkedEntries(t, path, id, entries, mounts, a, budget - 1), ds, budget, limit);
      }
    }
  }

  lemma AddWatchBelow(s: Inotify, path: string, parent: Option<Ptr>, a: Answers)
    requires Valid(s) && Live(s, parent) && NulFree(path)
    ensures var t := AddWatch(s, path, parent, a).0; Extends(s, t) && NewBelow(s, t, path)
  {
    AddWatchGrows(s, path, parent, a);
    assert IsParentPath(path, path);
  }

  lemma ListedWithin(s: Inotify, path: string, parent: Option<Ptr>, a: Answers, r: Outcome, ds: set<nat>, budget: nat,
          limit: nat)
    requires Valid(s) && Live(s, parent) && NulFree(path)
    requires 0 < budget && EndsWithin(AddWatch(s, path, parent, a).0, r, path, ds, budget - 1, limit)
    ensures EndsWithin(s, r, path, ds, budget, limit + 1)
  {
    var t := AddWatch(s, path, parent, a).0;
    AddWatchBelow(s, path, parent, a);
    if !Hard(r.result) {
      assert IsParentPath(path, path);
      GrowthBelow(s, t, r.s, path, path);
    }
  }

  lemma GrowthBelow(s: Inotify, t: Inotify, u: Inotify, inner: string, path: string)
    requires Valid(t) && Valid(u) && Extends(s, t) && Extends(t, u) && IsParentPath(path, inner)
    requires NewBelow(s, t, inner) && NewBelow(t, u, path)
    ensures Extends(s, u) && NewBelow(s, u, path)
  {
    GrowthComposes(s, t, u);
    forall p | p in u.nodes && p !in s.nodes ensures IsParentPath(path, u.nodes[p].path) {
      if p in t.nodes {
        assert NodeOk(t, p);
        ParentPathTransitive(path, inner, t.nodes[p].path);
      }
    }
  }

  lemma {:induction false} EntriesEnd(s: Inotify, path: string, id: int, entries: seq<Entry>, mounts: seq<string>,
          a: Answers, ds: set<nat>, budget: nat)
    requires Valid(s) && NulFree(path) && Named(a) && Issues(a, ds)
    requires forall e | e in entries :: FileName(e.name)
    requires DistinctNames(entries) && 0 <= id
    requires |Unwatched(s, ds)| + |BelowEntries(s, path, entries)| <= budget
    ensures EndsWithin(s, WalkedEntries(s, path, id, entries, mounts, a, budget), path, ds, budget,
      |Unwatched(s, ds)| + |BelowEntries(s, path, entries)|)
    decreases budget, 1, |entries|
  {
    if entries == [] {
    } else if !Followed(path, entries[0], a) {
      BelowFirst(s, path, entries);
      EntriesEnd(s, path, id, entries[1..], mounts, a, ds, budget);
    } else {
      assert entries[0] in entries;
      var child := Child(path, entries[0].name);
      BelowFirst(s, path, entries);
      WalkEnds(s, child, TableGet(s, id), mounts, a, ds, budget);
      var r := Walked(s, child, TableGet(s, id), mounts, a, budget);
      if !Hard(r.result) {
        BelowFirstAndRest(s, r.s, path, entries);
        EntriesEnd(r.s, path, id, entries[1..], mounts, a, ds, r.left);
        var u := WalkedEntries(r.s, path, id, entries[1..], mounts, a, r.left);
        if !Hard(u.result) {
          GrowthBelow(s, r.s, u.s, child, path);
        }
      }
    }
  }
}
