/** A directory-delete event matches kids by string prefix: when that removes the right subtree. */
module DirectoryDeletion {
  import opened Options
  import opened Posix
  import opened Paths
  import opened Watches
  import opened Walk
  import opened MainLoop
  import opened Runs

  ghost predicate KidAt(s: Inotify, p: Ptr, i: nat, path: string)
    requires Valid(s) && p in s.nodes && i < |s.nodes[p].kids|
  {
    KidsLive(s, p);
    var kid := s.nodes[p].kids[i];
    kid.Some? && s.nodes[kid.value].path == path
  }

  ghost predicate KidPrefixOf(s: Inotify, p: Ptr, i: nat, path: string)
    requires Valid(s) && p in s.nodes && i < |s.nodes[p].kids|
  {
    KidsLive(s, p);
    var kid := s.nodes[p].kids[i];
    kid.Some? && s.nodes[kid.value].path < path
  }

  /** The nodes that ought to go: those of the kids of `p` that have exactly this path. */
  ghost predicate Doomed(s: Inotify, p: Ptr, path: string, q: Ptr)
    requires Valid(s) && p in s.nodes
  {
    exists i: nat {:trigger KidAt(s, p, i, path)} :: i < |s.nodes[p].kids| && KidAt(s, p, i, path)
      && Under(s.nodes, s.nodes[p].kids[i].value, q)
  }

  ghost predicate RemovesExactly(s: Inotify, p: Ptr, path: string)
    requires Valid(s) && p in s.nodes
  {
    forall q :: q in DropKid(s, p, path).nodes <==> q in s.nodes && !Doomed(s, p, path, q)
  }

  /** At most one kid has the path, and no kid before it is a proper string prefix of it. */
  ghost predicate Unambiguous(s: Inotify, p: Ptr, path: string)
    requires Valid(s) && p in s.nodes
  {
    var n := |s.nodes[p].kids|;
    && (forall i: nat, j: nat | i < j < n && KidAt(s, p, i, path) :: !KidAt(s, p, j, path))
    && (forall i: nat | i < n && KidPrefixOf(s, p, i, path) :: exists j: nat :: j < i && KidAt(s, p, j, path))
  }

  lemma SiblingsApart(s: Inotify, p: Ptr, i: nat, j: nat)
    requires Valid(s) && p in s.nodes && i < |s.nodes[p].kids| && j < |s.nodes[p].kids| && i != j
    requires s.nodes[p].kids[i].Some? && s.nodes[p].kids[j].Some?
    ensures !Under(s.nodes, s.nodes[p].kids[i].value, s.nodes[p].kids[j].value)
  {
    assert NodeOk(s, p);
    var a, b := s.nodes[p].kids[i].value, s.nodes[p].kids[j].value;
    var kids := s.nodes[p].kids;
    assert a != b by { if i < j { assert kids[i] != kids[j]; } else { assert kids[j] != kids[i]; } }
    if Under(s.nodes, a, p) { UnderIsNewer(s.nodes, a, p); }
  }

  /** The kid that goes, if the first match is at `i`. */
  lemma DropKidShape(s: Inotify, p: Ptr, path: string)
    requires Valid(s) && p in s.nodes
    ensures forall k | k in s.nodes[p].kids && k.Some? :: k.value in s.nodes
    ensures var i := FirstKid(s, s.nodes[p].kids, path, 0);
      forall q :: q in DropKid(s, p, path).nodes <==>
        q in s.nodes && (i < |s.nodes[p].kids| ==> !Under(s.nodes, s.nodes[p].kids[i].value, q))
  {
    KidsLive(s, p);
    var i := FirstKid(s, s.nodes[p].kids, path, 0);
    if i < |s.nodes[p].kids| { DropValid(s, s.nodes[p].kids[i].value); }
  }

  lemma UnambiguousSuffices(s: Inotify, p: Ptr, path: string)
    requires Valid(s) && p in s.nodes && Unambiguous(s, p, path)
    ensures RemovesExactly(s, p, path)
  {
    DropKidShape(s, p, path);
    var n := |s.nodes[p].kids|;
    var i := FirstKid(s, s.nodes[p].kids, path, 0);
    forall j: nat | j < i ensures !KidAt(s, p, j, path) {}
    if i < n { assert KidPrefixOf(s, p, i, path) || KidAt(s, p, i, path); }
    forall j: nat | j < n ensures KidAt(s, p, j, path) <==> j == i {}
  }

  /** Every kid with the path goes, so it is the first match. */
  lemma ExactKidIsFirst(s: Inotify, p: Ptr, path: string, j: nat)
    requires Valid(s) && p in s.nodes && RemovesExactly(s, p, path)
    requires j < |s.nodes[p].kids| && KidAt(s, p, j, path)
    requires forall k | k in s.nodes[p].kids && k.Some? :: k.value in s.nodes
    ensures j == FirstKid(s, s.nodes[p].kids, path, 0)
  {
    var kids := s.nodes[p].kids;
    var i := FirstKid(s, kids, path, 0);
    DropKidShape(s, p, path);
    assert kids[j] in kids;
    assert Doomed(s, p, path, kids[j].value);
    if j != i && i < |kids| { SiblingsApart(s, p, i, j); }
  }

  /** And the first match goes, so it has the path. */
  lemma FirstMatchIsExact(s: Inotify, p: Ptr, path: string)
    requires Valid(s) && p in s.nodes && RemovesExactly(s, p, path)
    requires forall k | k in s.nodes[p].kids && k.Some? :: k.value in s.nodes
    ensures var i := FirstKid(s, s.nodes[p].kids, path, 0);
      i < |s.nodes[p].kids| ==> KidAt(s, p, i, path)
  {
    var kids := s.nodes[p].kids;
    var i := FirstKid(s, kids, path, 0);
    DropKidShape(s, p, path);
    if i < |kids| {
      assert kids[i] in kids;
      assert Doomed(s, p, path, kids[i].value);
      var j: nat :| j < |kids| && KidAt(s, p, j, path) && Under(s.nodes, kids[j].value, kids[i].value);
      if j != i { SiblingsApart(s, p, j, i); }
    }
  }

  lemma PrefixComesAfter(s: Inotify, p: Ptr, path: string, i: nat, j: nat)
    requires Valid(s) && p in s.nodes && i < |s.nodes[p].kids| && j < |s.nodes[p].kids|
    requires KidAt(s, p, i, path) && KidPrefixOf(s, p, j, path) && i <= j
    ensures i < j
  {
  }

  lemma UnambiguousIsNecessary(s: Inotify, p: Ptr, path: string)
    requires Valid(s) && p in s.nodes && RemovesExactly(s, p, path)
    ensures Unambiguous(s, p, path)
  {
    KidsLive(s, p);
    var n := |s.nodes[p].kids|;
    forall i: nat, j: nat | i < j < n && KidAt(s, p, i, path) ensures !KidAt(s, p, j, path) {
      ExactKidIsFirst(s, p, path, i);
      if KidAt(s, p, j, path) { ExactKidIsFirst(s, p, path, j); }
    }
    var first := FirstKid(s, s.nodes[p].kids, path, 0);
    FirstMatchIsExact(s, p, path);
    forall j: nat | j < n && KidPrefixOf(s, p, j, path) ensures exists k: nat :: k < j && KidAt(s, p, k, path) {
      PrefixComesAfter(s, p, path, first, j);
    }
  }

  /** A directory-delete event removes exactly the nodes of the directory that is gone
      if and only if no other kid can be mistaken for it. */
  lemma DeletionIsExactIff(s: Inotify, p: Ptr, path: string)
    requires Valid(s) && p in s.nodes
    ensures RemovesExactly(s, p, path) <==> Unambiguous(s, p, path)
  {
    if Unambiguous(s, p, path) { UnambiguousSuffices(s, p, path); }
    if RemovesExactly(s, p, path) { UnambiguousIsNecessary(s, p, path); }
  }

  // ---------- a run in which the wrong directory goes ----------

  /** In this world `dir` contains the empty directories `x` and `y`, listed in this order. */
  ghost predicate TwoDirectories(w: World, dir: string, x: string, y: string) {
    && w.stat(dir) == Found(Directory)
    && w.opendir(dir) == Opened([Entry(x, DtDir), Entry(y, DtDir)]) && w.addWatch(dir) == Descriptor(1)
    && w.opendir(Child(dir, x)) == Opened([]) && w.addWatch(Child(dir, x)) == Descriptor(2)
    && w.opendir(Child(dir, y)) == Opened([]) && w.addWatch(Child(dir, y)) == Descriptor(3)
  }

  lemma TwoDirectoriesExist(dir: string, x: string, y: string) returns (w: World)
    requires dir != "" && |Child(dir, x)| < PATH_MAX && |Child(dir, y)| < PATH_MAX && FileName(x) && FileName(y)
      && x != y
    ensures TwoDirectories(w, dir, x, y)
  {
    var a, b := Child(dir, x), Child(dir, y);
    assert a[|dir| + 1..] == x && b[|dir| + 1..] == y;
    w := Answers(
      p => if p == dir then Opened([Entry(x, DtDir), Entry(y, DtDir)]) else if p == a || p == b then Opened([])
        else NotOpened(ENOENT),
      p => if p == dir then Descriptor(1) else if p == a then Descriptor(2) else if p == b then Descriptor(3)
        else Refused(ENOENT),
      p => if p == dir || p == a || p == b then Found(Directory) else NotFound(ENOENT),
      _ => None);
  }

  lemma LeafWalk(s: Inotify, path: string, parent: Option<Ptr>, wd: nat, w: World)
    requires Valid(s) && Live(s, parent) && NulFree(path) && TableGet(s, wd) == None
    requires w.opendir(path) == Opened([]) && w.addWatch(path) == Descriptor(wd)
    ensures WalkTree(s, path, parent, true, [], w) == (Insert(s, wd, path, parent), wd)
  {
  }

  ghost function Siblings(dir: string, x: string, y: string): map<Ptr, Node> {
    map[0 := Node(1, dir, |dir|, None, [Some(1), Some(2)]),
        1 := Node(2, Child(dir, x), |Child(dir, x)|, Some(0), []),
        2 := Node(3, Child(dir, y), |Child(dir, y)|, Some(0), [])]
  }

  /** The three insertions of the walk. */
  lemma SiblingsInserted(s: Inotify, dir: string, x: string, y: string)
    requires s == Start(8).inotify && NulFree(dir) && EntryName(x) && EntryName(y)
    ensures TableGet(s, 1) == None
    ensures var s1 := Insert(s, 1, dir, None);
      && Valid(s1) && TableGet(s1, 1) == Some(0) && TableGet(s1, 2) == None
      && Live(s1, Some(0))
      && var s2 := Insert(s1, 2, Child(dir, x), Some(0));
         && Valid(s2) && TableGet(s2, 1) == Some(0) && TableGet(s2, 3) == None
         && Live(s2, Some(0))
         && var s3 := Insert(s2, 3, Child(dir, y), Some(0));
            Valid(s3) && TableGet(s3, 1) == Some(0) && s3.nodes == Siblings(dir, x, y)
  {
    InsertValid(s, 1, dir, None);
    var s1 := Insert(s, 1, dir, None);
    InsertValid(s1, 2, Child(dir, x), Some(0));
    var s2 := Insert(s1, 2, Child(dir, x), Some(0));
    InsertValid(s2, 3, Child(dir, y), Some(0));
    assert [] + [Some(1)] == [Some(1)] && [Some(1)] + [Some(2)] == [Some(1), Some(2)];
  }

  lemma SiblingsWalk(s: Inotify, dir: string, x: string, y: string, w: World)
    requires s == Start(8).inotify && NulFree(dir) && EntryName(x) && EntryName(y) && TwoDirectories(w, dir, x, y)
    ensures var (t, id) := WalkTree(s, dir, None, true, [], w);
      id == 1 && t.nodes == Siblings(dir, x, y) && TableGet(t, 1) == Some(0)
  {
    SiblingsInserted(s, dir, x, y);
    var s1 := Insert(s, 1, dir, None);
    var s2 := Insert(s1, 2, Child(dir, x), Some(0));
    LeafWalk(s1, Child(dir, x), Some(0), 2, w);
    LeafWalk(s2, Child(dir, y), Some(0), 3, w);
    SiblingsListed(s1, s2, dir, x, y, w);
  }

  lemma SiblingsListed(s1: Inotify, s2: Inotify, dir: string, x: string, y: string, w: World)
    requires Valid(s1) && Valid(s2) && TableGet(s1, 1) == TableGet(s2, 1) && NulFree(dir) && |dir| < PATH_MAX
      && EntryName(x) && EntryName(y)
    requires var sub := WalkTree(s1, Child(dir, x), TableGet(s1, 1), true, [], w); sub.0 == s2 && 0 <= sub.1
    requires 0 <= WalkTree(s2, Child(dir, y), TableGet(s2, 1), true, [], w).1
    ensures WalkEntries(s1, dir, 1, [Entry(x, DtDir), Entry(y, DtDir)], [], w) ==
      (WalkTree(s2, Child(dir, y), TableGet(s2, 1), true, [], w).0, 1)
  {
    var ex, ey := Entry(x, DtDir), Entry(y, DtDir);
    assert [ex, ey][1..] == [ey] && [ey][1..] == [];
    var s3 := WalkTree(s2, Child(dir, y), TableGet(s2, 1), true, [], w).0;
    assert WalkEntries(s3, dir, 1, [], [], w) == (s3, 1);
    assert WalkEntries(s2, dir, 1, [ey], [], w) == (s3, 1);
  }

  lemma SiblingsRegistered(dir: string, x: string, y: string, ws: nat -> World)
    requires NulFree(dir) && dir != "" && dir[0] == '/' && dir[|dir| - 1] != '/'
    requires EntryName(x) && EntryName(y) && TwoDirectories(ws(0), dir, x, y)
    ensures var (m, ok) := UpdateRoots(Start(8), [dir], Some([]), ws);
      ok && m.inotify.nodes == Siblings(dir, x, y) && TableGet(m.inotify, 1) == Some(0)
  {
    SiblingsWalk(Start(8).inotify, dir, x, y, ws(0));
    var r := RegisterRoot(Start(8), dir, [], ws(0));
    assert ScanMounts([], dir) == Scan(false, [], []);
    assert r.ok && r.unwatchable == [];
    assert Register(r.monitor, [dir], [], [] + [], ws, 1) == Registered(r.monitor, [], true);
    assert Register(Start(8), [dir], [], [], ws, 0) == Registered(r.monitor, [], true);
  }

  /** The first kid matches the path of the second. */
  lemma WrongKidGoes(s: Inotify, dir: string, x: string, y: string)
    requires Valid(s) && s.nodes == Siblings(dir, x, y) && x < y
    ensures var t := DropKid(s, 0, Child(dir, y)); 1 !in t.nodes && 2 in t.nodes
  {
    DropKidShape(s, 0, Child(dir, y));
    assert s.nodes[1].path <= Child(dir, y);
    assert FirstKid(s, s.nodes[0].kids, Child(dir, y), 0) == 0;
  }

  /** Whenever one name is a proper string prefix of another, a run from the start comes to this: the directory
      `y` is deleted, and the node that goes is that of `x`. */
  lemma SiblingPrefixRun(dir: string, x: string, y: string) returns (steps: seq<Step>)
    requires NulFree(dir) && dir != "" && dir[0] == '/' && dir[|dir| - 1] != '/' && |Child(dir, y)| < PATH_MAX
    requires EntryName(x) && EntryName(y) && x < y
    ensures |steps| == 2 && steps[1].InotifyInput? && steps[1].event == Event(1, {InDelete}, true, y)
    ensures forall step | step in steps :: StepOk(step)
    ensures var before, after := Run(Start(8), steps[..1]).inotify.nodes, Run(Start(8), steps).inotify.nodes;
      && before == Siblings(dir, x, y)
      && 1 !in after && 2 in after
  {
    var w := TwoDirectoriesExist(dir, x, y);
    var ws: nat -> World := _ => w;
    steps := [RootsCommand([dir], Some([]), ws), InotifyInput(Event(1, {InDelete}, true, y), w)];
    SiblingTurns(dir, x, y, w, steps);
  }

  lemma {:induction false} SiblingTurns(dir: string, x: string, y: string, w: World, steps: seq<Step>)
    requires NulFree(dir) && dir != "" && dir[0] == '/' && dir[|dir| - 1] != '/'
    requires EntryName(x) && EntryName(y) && x < y
    requires |steps| == 2 && steps[1] == InotifyInput(Event(1, {InDelete}, true, y), w)
    requires steps[0].RootsCommand? && steps[0].newRoots == [dir] && steps[0].mounts == Some([])
    requires TwoDirectories(steps[0].ws(0), dir, x, y)
    ensures forall step | step in steps :: StepOk(step)
    ensures Run(Start(8), steps[..1]).inotify.nodes == Siblings(dir, x, y)
    ensures var after := Run(Start(8), steps).inotify.nodes; 1 !in after && 2 in after
  {
    assert StepOk(steps[0]) && StepOk(steps[1]);
    assert forall step | step in steps :: step == steps[0] || step == steps[1];
    SiblingsTurn(dir, x, y, steps[0]);
    OneTurn(Start(8), steps[..1]);
    TwoTurns(Start(8), steps);
    DeletionTurn(Turn(Start(8), steps[0]).0, dir, x, y, w);
  }

  lemma SiblingsTurn(dir: string, x: string, y: string, step: Step)
    requires NulFree(dir) && dir != "" && dir[0] == '/' && dir[|dir| - 1] != '/' && EntryName(x) && EntryName(y)
    requires StepOk(step) && step.RootsCommand? && step.newRoots == [dir] && step.mounts == Some([])
      && TwoDirectories(step.ws(0), dir, x, y)
    ensures var (m, ok) := Turn(Start(8), step);
      ok && m.inotify.nodes == Siblings(dir, x, y) && TableGet(m.inotify, 1) == Some(0)
  {
    SiblingsRegistered(dir, x, y, step.ws);
  }

  lemma DeletionTurn(m: Monitor, dir: string, x: string, y: string, w: World)
    requires Valid(m.inotify) && m.inotify.nodes == Siblings(dir, x, y) && TableGet(m.inotify, 1) == Some(0)
    requires EntryName(y) && x < y
    ensures var (t, ok) := ProcessEvent(m, Event(1, {InDelete}, true, y), w);
      1 !in t.inotify.nodes && 2 in t.inotify.nodes
  {
    var path := Child(dir, y);
    CallbackFrame(m, path, {InDelete});
    WrongKidGoes(Callback(m, path, {InDelete}).inotify, dir, x, y);
  }

  /** The smallest case. */
  lemma SiblingPrefixExample() returns (steps: seq<Step>)
    ensures |steps| == 2 && steps[1].InotifyInput? && steps[1].event == Event(1, {InDelete}, true, "bc")
    ensures forall step | step in steps :: StepOk(step)
    ensures var before, after := Run(Start(8), steps[..1]).inotify.nodes, Run(Start(8), steps).inotify.nodes;
      && before == Siblings("/a", "b", "bc")
      && 1 !in after && 2 in after
  {
    steps := SiblingPrefixRun("/a", "b", "bc");
  }
}
