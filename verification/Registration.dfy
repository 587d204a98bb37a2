/** What `update_roots` tells the client: which roots it registers, and which paths it lists as unwatchable. */
module Registration {
  import opened Options
  import opened Posix
  import opened Paths
  import opened Protocol
  import opened Watches
  import opened Walk
  import opened MainLoop

  // ---------- watch ----------

  /** What `watch` answers by the result of `stat`, and when it walks. */
  lemma WatchAnswers(s: Inotify, root: string, mounts: seq<string>, w: World)
    requires Valid(s) && NulFree(root)
    ensures var (t, r) := Watch(s, root, mounts, w);
      var path := if root != "" && root[0] == '|' then root[1..] else root;
      match w.stat(path)
      case NotFound(e) =>
        && t == s
        && (r == ERR_MISSING <==> e == ENOENT)
        && (r == ERR_CONTINUE <==> e == EACCES || e == ELOOP || e == ENAMETOOLONG || e == ENOTDIR)
        && (r == ERR_ABORT <==> e == ENOSPC || e == OtherErrno)
      case Found(SpecialFile) => t == s && r == ERR_IGNORE
      case Found(RegularFile) => (t, r) == WalkTree(s, TrimSlash(path), None, false, mounts, w)
      case Found(Directory) => (t, r) == WalkTree(s, TrimSlash(path), None, root == path, mounts, w)
  {
  }

  // ---------- the reference ----------

  predicate Absolute(root: string) {
    Unflatten(root) != "" && Unflatten(root)[0] == '/'
  }

  /** Some mount contains the path, in the sense of `is_parent_path`. */
  predicate Covered(mounts: seq<string>, path: string) {
    exists j :: 0 <= j < |mounts| && IsParentPath(mounts[j], path)
  }

  /** `x` is a mount inside `path` that comes before any that contains `path`. */
  predicate InsideBeforeCover(mounts: seq<string>, path: string, x: string) {
    exists j :: 0 <= j < |mounts| && mounts[j] == x && InsideAt(mounts, path, j)
  }

  predicate InsideAt(mounts: seq<string>, path: string, j: nat)
    requires j < |mounts|
  {
    IsParentPath(path, mounts[j]) && forall k | 0 <= k <= j :: !IsParentPath(mounts[k], path)
  }

  /** What watching each root from `i` on answers, if it comes to that. */
  ghost function Answers(m: Monitor, newRoots: seq<string>, mounts: seq<string>, ws: nat -> World,
          i: nat): (r: seq<int>)
    requires Valid(m.inotify) && AllNulFree(newRoots) && i <= |newRoots|
    ensures |r| == |newRoots| - i
    decreases |newRoots| - i
  {
    if i == |newRoots| then []
    else
      var inner := ScanMounts(mounts, Unflatten(newRoots[i])).inner;
      [Watch(m.inotify, newRoots[i], inner, ws(i)).1]
      + Answers(RegisterRoot(m, newRoots[i], mounts, ws(i)).monitor, newRoots, mounts, ws, i + 1)
  }

  /** The state after the turns of all roots from `i` on. */
  ghost function After(m: Monitor, newRoots: seq<string>, mounts: seq<string>, ws: nat -> World, i: nat): (r: Monitor)
    requires Valid(m.inotify) && AllNulFree(newRoots) && i <= |newRoots|
    ensures Valid(r.inotify)
    decreases |newRoots| - i
  {
    if i == |newRoots| then m
    else After(RegisterRoot(m, newRoots[i], mounts, ws(i)).monitor, newRoots, mounts, ws, i + 1)
  }

  /** The root is handed to `watch`. */
  predicate Tried(root: string, mounts: seq<string>) {
    Absolute(root) && !Covered(mounts, Unflatten(root))
  }

  /** `x` is listed on account of `root`, given what watching it answers. */
  predicate Listed(root: string, mounts: seq<string>, answer: int, x: string) {
    var path := Unflatten(root);
    Absolute(root) && (
      || (Covered(mounts, path) && x == path)
      || InsideBeforeCover(mounts, path, x)
      || (!Covered(mounts, path) && x == path && Unwatched(answer)))
  }

  /** The root could not be watched, for no reason that is passed over or ends the program. */
  predicate Unwatched(answer: int) {
    answer < 0 && answer != ERR_MISSING && answer != ERR_IGNORE && answer != ERR_ABORT
  }

  predicate Registers(root: string, mounts: seq<string>, answer: int) {
    Tried(root, mounts) && (0 <= answer || answer == ERR_MISSING)
  }

  predicate Aborts(root: string, mounts: seq<string>, answer: int) {
    Tried(root, mounts) && answer == ERR_ABORT
  }

  // ---------- proof ----------

  lemma {:induction false} ScanLists(mounts: seq<string>, root: string, x: string)
    ensures var scan := ScanMounts(mounts, root);
      && (scan.skip <==> Covered(mounts, root))
      && (x in scan.unwatchable <==> (Covered(mounts, root) && x == root) || InsideBeforeCover(mounts, root, x))
  {
    if mounts != [] {
      var rest := mounts[1..];
      ScanLists(rest, root, x);
      assert forall j | 0 < j < |mounts| :: mounts[j] == rest[j - 1];
      if IsParentPath(mounts[0], root) {
        assert !InsideBeforeCover(mounts, root, x);
      } else {
        ScanListsMore(mounts, root, x);
      }
    }
  }

  lemma ScanListsMore(mounts: seq<string>, root: string, x: string)
    requires mounts != [] && !IsParentPath(mounts[0], root)
    ensures Covered(mounts, root) <==> Covered(mounts[1..], root)
    ensures InsideBeforeCover(mounts, root, x) <==>
      (IsParentPath(root, mounts[0]) && x == mounts[0]) || InsideBeforeCover(mounts[1..], root, x)
  {
    var rest := mounts[1..];
    assert forall j | 0 < j < |mounts| :: mounts[j] == rest[j - 1];
    forall j: nat | 0 < j < |mounts| ensures InsideAt(mounts, root, j) <==> InsideAt(rest, root, j - 1) {
      if InsideAt(mounts, root, j) {
        forall k | 0 <= k <= j - 1 ensures !IsParentPath(rest[k], root) { assert rest[k] == mounts[k + 1]; }
      }
    }
    if InsideBeforeCover(mounts, root, x) {
      var j :| 0 <= j < |mounts| && mounts[j] == x && InsideAt(mounts, root, j);
      if j > 0 { assert rest[j - 1] == x && InsideAt(rest, root, j - 1); }
    }
    if InsideBeforeCover(rest, root, x) {
      var j :| 0 <= j < |rest| && rest[j] == x && InsideAt(rest, root, j);
      assert mounts[j + 1] == x && InsideAt(mounts, root, j + 1);
    }
    if IsParentPath(root, mounts[0]) { assert InsideAt(mounts, root, 0); }
  }

  lemma OneRoot(m: Monitor, root: string, mounts: seq<string>, w: World)
    requires Valid(m.inotify) && NulFree(root)
    ensures var r := RegisterRoot(m, root, mounts, w);
      var answer := Watch(m.inotify, root, ScanMounts(mounts, Unflatten(root)).inner, w).1;
      && (r.ok <==> !Aborts(root, mounts, answer))
      && (r.ok ==> forall x :: x in r.unwatchable <==> Listed(root, mounts, answer, x))
      && r.monitor.roots == m.roots + if Registers(root, mounts, answer) then [Root(root, answer)] else []
  {
    var path := Unflatten(root);
    var scan := ScanMounts(mounts, path);
    forall x
      ensures scan.skip <==> Covered(mounts, path)
      ensures x in scan.unwatchable <==> (Covered(mounts, path) && x == path) || InsideBeforeCover(mounts, path, x)
    {
      ScanLists(mounts, path, x);
    }
    ScanLists(mounts, path, "");
    assert m.roots + [] == m.roots;
  }

  lemma {:induction false} RegisterLists(m: Monitor, newRoots: seq<string>, mounts: seq<string>, before: seq<string>,
          ws: nat -> World, i: nat, answers: seq<int>)
    requires Valid(m.inotify) && AllNulFree(newRoots) && i <= |newRoots|
    requires |answers| == |newRoots| && answers[i..] == Answers(m, newRoots, mounts, ws, i)
    ensures var r := Register(m, newRoots, mounts, before, ws, i);
      && (r.ok <==> forall k | i <= k < |newRoots| :: !Aborts(newRoots[k], mounts, answers[k]))
      && (r.ok ==> r.monitor == After(m, newRoots, mounts, ws, i))
      && (r.ok ==> forall x :: x in r.unwatchable <==>
            x in before || ListedFrom(newRoots, mounts, answers, i, x))
    decreases |newRoots| - i
  {
    if i < |newRoots| {
      var r := RegisterRoot(m, newRoots[i], mounts, ws(i));
      OneRoot(m, newRoots[i], mounts, ws(i));
      assert answers[i] == answers[i..][0] && answers[i + 1..] == answers[i..][1..];
      if r.ok {
        RegisterLists(r.monitor, newRoots, mounts, before + r.unwatchable, ws, i + 1, answers);
        forall x ensures ListedFrom(newRoots, mounts, answers, i, x) <==>
          Listed(newRoots[i], mounts, answers[i], x) || ListedFrom(newRoots, mounts, answers, i + 1, x)
        {
          ListedFromNext(newRoots, mounts, answers, i, x);
        }
      }
    }
  }

  ghost predicate ListedFrom(newRoots: seq<string>, mounts: seq<string>, answers: seq<int>, i: nat, x: string)
    requires |answers| == |newRoots|
  {
    exists k :: i <= k < |newRoots| && Listed(newRoots[k], mounts, answers[k], x)
  }

  lemma ListedFromNext(newRoots: seq<string>, mounts: seq<string>, answers: seq<int>, i: nat, x: string)
    requires |answers| == |newRoots| && i < |newRoots|
    ensures ListedFrom(newRoots, mounts, answers, i, x) <==>
      Listed(newRoots[i], mounts, answers[i], x) || ListedFrom(newRoots, mounts, answers, i + 1, x)
  {
  }

  ghost predicate RegistersFrom(newRoots: seq<string>, mounts: seq<string>, answers: seq<int>, i: nat, x: Root)
    requires |answers| == |newRoots|
  {
    exists k :: i <= k < |newRoots| && Registers(newRoots[k], mounts, answers[k]) && x == Root(newRoots[k], answers[k])
  }

  lemma RegistersFromNext(newRoots: seq<string>, mounts: seq<string>, answers: seq<int>, i: nat, x: Root)
    requires |answers| == |newRoots| && i < |newRoots|
    ensures RegistersFrom(newRoots, mounts, answers, i, x) <==>
      || (Registers(newRoots[i], mounts, answers[i]) && x == Root(newRoots[i], answers[i]))
      || RegistersFrom(newRoots, mounts, answers, i + 1, x)
  {
  }

  lemma {:induction false} RootsAreThose(m: Monitor, newRoots: seq<string>, mounts: seq<string>, ws: nat -> World,
          i: nat, answers: seq<int>)
    requires Valid(m.inotify) && AllNulFree(newRoots) && i <= |newRoots|
    requires |answers| == |newRoots| && answers[i..] == Answers(m, newRoots, mounts, ws, i)
    ensures forall x :: x in After(m, newRoots, mounts, ws, i).roots <==>
      x in m.roots || RegistersFrom(newRoots, mounts, answers, i, x)
    decreases |newRoots| - i
  {
    if i < |newRoots| {
      forall x ensures RegistersFrom(newRoots, mounts, answers, i, x) <==>
        || (Registers(newRoots[i], mounts, answers[i]) && x == Root(newRoots[i], answers[i]))
        || RegistersFrom(newRoots, mounts, answers, i + 1, x)
      {
        RegistersFromNext(newRoots, mounts, answers, i, x);
      }
      OneRoot(m, newRoots[i], mounts, ws(i));
      assert answers[i] == answers[i..][0] && answers[i + 1..] == answers[i..][1..];
      RootsAreThose(RegisterRoot(m, newRoots[i], mounts, ws(i)).monitor, newRoots, mounts, ws, i + 1, answers);
    }
  }

  ghost predicate ListsExactly(lines: seq<string>, newRoots: seq<string>, mounts: seq<string>, answers: seq<int>)
    requires |answers| == |newRoots|
  {
    forall x :: x in lines <==> exists i :: 0 <= i < |newRoots| && Listed(newRoots[i], mounts, answers[i], x)
  }

  ghost predicate RegistersExactly(roots: seq<Root>, newRoots: seq<string>, mounts: seq<string>, answers: seq<int>)
    requires |answers| == |newRoots|
  {
    forall x :: x in roots <==> exists i ::
      0 <= i < |newRoots| && Registers(newRoots[i], mounts, answers[i]) && x == Root(newRoots[i], answers[i])
  }

  /** Replacing the roots succeeds if and only if no root that is tried ends the program. Then the list of
      unwatchable paths is the last output, and has exactly: the roots that a mount contains, the mounts inside
      roots up to the first that contains the root, and the roots that could not be watched. The registered roots
      are those that are watched or missing. */
  lemma AnnouncedExactly(m: Monitor, newRoots: seq<string>, mounts: seq<string>, ws: nat -> World, answers: seq<int>)
    requires Valid(m.inotify) && AllNulFree(newRoots) && newRoots != [] && newRoots != ["/"]
    requires answers == Answers(Unregister(m), newRoots, mounts, ws, 0)
    ensures var (t, ok) := UpdateRoots(m, newRoots, Some(mounts), ws);
      && (ok <==> forall i | 0 <= i < |newRoots| :: !Aborts(newRoots[i], mounts, answers[i]))
      && (ok ==> exists lines ::
            && t.inotify.out == After(Unregister(m), newRoots, mounts, ws, 0).inotify.out + [Unwatchable(lines)]
            && ListsExactly(lines, newRoots, mounts, answers))
      && (ok ==> RegistersExactly(t.roots, newRoots, mounts, answers))
  {
    RegisterExactly(Unregister(m), newRoots, mounts, ws, answers);
    UpdateIsRegister(m, newRoots, mounts, ws);
  }

  lemma RegisterExactly(was: Monitor, newRoots: seq<string>, mounts: seq<string>, ws: nat -> World, answers: seq<int>)
    requires Valid(was.inotify) && was.roots == [] && AllNulFree(newRoots)
    requires answers == Answers(was, newRoots, mounts, ws, 0)
    ensures var r := Register(was, newRoots, mounts, [], ws, 0);
      && (r.ok <==> forall i | 0 <= i < |newRoots| :: !Aborts(newRoots[i], mounts, answers[i]))
      && (r.ok ==> r.monitor == After(was, newRoots, mounts, ws, 0))
      && (r.ok ==> ListsExactly(r.unwatchable, newRoots, mounts, answers))
      && (r.ok ==> RegistersExactly(r.monitor.roots, newRoots, mounts, answers))
  {
    assert answers[0..] == answers;
    RegisterLists(was, newRoots, mounts, [], ws, 0, answers);
    RootsAreThose(was, newRoots, mounts, ws, 0, answers);
    forall x ensures ListedFrom(newRoots, mounts, answers, 0, x) <==>
      exists i :: 0 <= i < |newRoots| && Listed(newRoots[i], mounts, answers[i], x) {}
  }

  lemma UpdateIsRegister(m: Monitor, newRoots: seq<string>, mounts: seq<string>, ws: nat -> World)
    requires Valid(m.inotify) && AllNulFree(newRoots) && newRoots != [] && newRoots != ["/"]
    ensures var (t, ok) := UpdateRoots(m, newRoots, Some(mounts), ws);
      var r := Register(Unregister(m), newRoots, mounts, [], ws, 0);
      && ok == r.ok && t.roots == r.monitor.roots
      && (ok ==> t.inotify.out == r.monitor.inotify.out + [Unwatchable(r.unwatchable)])
  {
  }

  /** No root is lost: each absolute one is registered, listed, or answered with ERR_IGNORE. */
  lemma NoRootIsLost(m: Monitor, newRoots: seq<string>, mounts: seq<string>, ws: nat -> World, answers: seq<int>,
          i: nat)
    requires Valid(m.inotify) && AllNulFree(newRoots) && newRoots != ["/"] && i < |newRoots| && Absolute(newRoots[i])
    requires answers == Answers(Unregister(m), newRoots, mounts, ws, 0) && UpdateRoots(m, newRoots, Some(mounts), ws).1
    ensures var t := UpdateRoots(m, newRoots, Some(mounts), ws).0;
      || Root(newRoots[i], answers[i]) in t.roots
      || (exists out, lines :: t.inotify.out == out + [Unwatchable(lines)] && Unflatten(newRoots[i]) in lines)
      || (Tried(newRoots[i], mounts) && answers[i] == ERR_IGNORE)
  {
    var t := UpdateRoots(m, newRoots, Some(mounts), ws).0;
    AnnouncedExactly(m, newRoots, mounts, ws, answers);
    assert !Aborts(newRoots[i], mounts, answers[i]);
    if !Registers(newRoots[i], mounts, answers[i]) && !(Tried(newRoots[i], mounts) && answers[i] == ERR_IGNORE) {
      assert Listed(newRoots[i], mounts, answers[i], Unflatten(newRoots[i]));
    }
  }

  /** The cases without registration. */
  lemma AnnouncedWithoutMounts(m: Monitor, newRoots: seq<string>, mounts: Option<seq<string>>, ws: nat -> World)
    requires Valid(m.inotify) && AllNulFree(newRoots) && (newRoots == [] || newRoots == ["/"] || mounts == None)
    ensures var (t, ok) := UpdateRoots(m, newRoots, mounts, ws);
      && t.roots == []
      && (ok <==> newRoots == [] || newRoots == ["/"])
      && (ok ==> t.inotify.out == Unregister(m).inotify.out + [Unwatchable(newRoots)])
  {
  }
}
