/** What the client learns: the reports of each event, and the set of paths that replaying them gives. */
module Replay {
  import opened Options
  import opened Posix
  import opened Paths
  import opened Protocol
  import opened Watches
  import opened Walk
  import opened MainLoop
  import opened Runs
  import opened RootReports

  // ---------- the client ----------

  /** The paths the client knows of after `out`: a CREATE adds one, a DELETE takes one away. */
  function Known(out: seq<Output>, known: set<string>): set<string> {
    if out == [] then known
    else
      var before, o := Known(out[..|out| - 1], known), out[|out| - 1];
      if o.Report? && o.tag == CREATE then before + {o.path}
      else if o.Report? && o.tag == DELETE then before - {o.path}
      else before
  }

  lemma {:induction false} KnownConcat(a: seq<Output>, b: seq<Output>, known: set<string>)
    ensures Known(a + b, known) == Known(b, Known(a, known))
  {
    if b == [] {
      assert a + b == a;
    } else {
      assert (a + b)[..|a + b| - 1] == a + b[..|b| - 1];
      KnownConcat(a, b[..|b| - 1], known);
    }
  }

  lemma {:induction false} KnownByReports(out: seq<Output>, known: set<string>)
    ensures Known(ReportsOf(out), known) == Known(out, known)
  {
    if out != [] {
      var n := |out| - 1;
      KnownByReports(out[..n], known);
      KnownConcat(ReportsOf(out[..n]), if out[n].Report? then [out[n]] else [], known);
      assert [out[n]][..0] == [];
    }
  }

  // ---------- what each event is reported as ----------

  /** The reports about an event with this one bit, for the object at `path`: an entry that comes is created and
      changed, one that goes is deleted, new content is one change, new attributes are one STATS. An object gone
      from its own path is reported once for every registered root there; the rest is not reported. */
  ghost predicate Tells(bit: Bit, path: string, rootsThere: nat, said: seq<Output>) {
    match bit
    case InCreate | InMovedTo => said == [Report(CREATE, path), Report(CHANGE, path)]
    case InDelete | InMovedFrom => said == [Report(DELETE, path)]
    case InModify => said == [Report(CHANGE, path)]
    case InAttrib => said == [Report(STATS, path)]
    case InDeleteSelf | InMoveSelf => said == Deletes(path, rootsThere)
    case InUnmount => said == []
  }

  function Deletes(path: string, n: nat): (r: seq<Output>)
    ensures |r| == n && forall i | 0 <= i < n :: r[i] == Report(DELETE, path)
  {
    seq(n, _ => Report(DELETE, path))
  }

  /** How many present roots have the path. */
  ghost function RootsAt(roots: seq<Root>, path: string): nat {
    if roots == [] then 0
    else
      RootsAt(roots[..|roots| - 1], path)
      + if 0 <= roots[|roots| - 1].id && Unflatten(roots[|roots| - 1].path) == path then 1 else 0
  }

  lemma RootsAtOneMore(roots: seq<Root>, path: string, i: nat)
    requires i < |roots|
    ensures RootsAt(roots[..i + 1], path) == RootsAt(roots[..i], path) + if RootIs(roots[i], path) then 1 else 0
  {
    assert roots[..i + 1][..i] == roots[..i];
  }

  /** From root `i` on, one DELETE for each present root with the path. */
  lemma {:induction false} RemovalTells(t: Monitor, path: string, i: nat)
    requires Valid(t.inotify) && i <= |t.roots|
    ensures RootsAt(t.roots[..i], path) <= RootsAt(t.roots, path)
    ensures CheckRootRemoval(t, path, i).inotify.out ==
      t.inotify.out + Deletes(path, RootsAt(t.roots, path) - RootsAt(t.roots[..i], path))
    decreases |t.roots| - i
  {
    if i == |t.roots| {
      assert t.roots[..i] == t.roots;
    } else {
      RootsAtOneMore(t.roots, path, i);
      if !RootIs(t.roots[i], path) {
        RemovalTells(t, path, i + 1);
      } else {
        var u := RootRemoved(t, i, path);
        RemovalTells(u, path, i + 1);
        RootsAfterRemoval(t.roots, i, path);
        RemoveReportsNothing(t.inotify, t.roots[i].id);
        var n := RootsAt(u.roots, path) - RootsAt(u.roots[..i + 1], path);
        OneMoreDelete(t.inotify.out, u.inotify.out, CheckRootRemoval(u, path, i + 1).inotify.out, path, n);
      }
    }
  }

  lemma OneMoreDelete(a: seq<Output>, b: seq<Output>, c: seq<Output>, path: string, n: nat)
    requires b == a + [Report(DELETE, path)] && c == b + Deletes(path, n)
    ensures c == a + Deletes(path, n + 1)
  {
    assert [Report(DELETE, path)] + Deletes(path, n) == Deletes(path, n + 1);
  }

  lemma RootsAfterRemoval(roots: seq<Root>, i: nat, path: string)
    requires i < |roots| && RootIs(roots[i], path)
    ensures var after := roots[i := roots[i].(id := -1)];
      && RootsAt(after, path) == RootsAt(roots, path) - 1
      && RootsAt(after[..i + 1], path) == RootsAt(roots[..i], path)
  {
    var after := roots[i := roots[i].(id := -1)];
    RootsAtOneMore(roots, path, i);
    RootsAtOneMore(after, path, i);
    assert after[..i] == roots[..i];
    OneLess(roots, after, i, path, |roots|);
    assert roots[..|roots|] == roots && after[..|roots|] == after;
  }

  lemma {:induction false} OneLess(roots: seq<Root>, after: seq<Root>, i: nat, path: string, n: nat)
    requires i < n <= |roots| == |after| && RootIs(roots[i], path)
    requires after == roots[i := roots[i].(id := -1)]
    ensures RootsAt(after[..n], path) == RootsAt(roots[..n], path) - 1
    decreases n
  {
    RootsAtOneMore(roots, path, n - 1);
    RootsAtOneMore(after, path, n - 1);
    if n == i + 1 { assert after[..i] == roots[..i]; } else { OneLess(roots, after, i, path, n - 1); }
  }

  lemma CancelLeft(a: seq<Output>, b: seq<Output>, c: seq<Output>)
    requires a + b == a + c
    ensures b == c
  {
    assert b == (a + b)[|a|..] && c == (a + c)[|a|..];
  }

  /** What was reported since `s`. */
  ghost function Since(s: Inotify, t: Inotify): seq<Output> {
    if s.out <= t.out then t.out[|s.out|..] else []
  }

  lemma ReportedSince(s: Inotify, t: Inotify, said: seq<Output>)
    requires Reported(s, t, said)
    ensures ReportsOf(Since(s, t)) == said && t.out == s.out + Since(s, t)
  {
    ReportsOfConcat(s.out, Since(s, t));
    CancelLeft(ReportsOf(s.out), ReportsOf(Since(s, t)), said);
  }

  /** The output of a callback, by bit. */
  ghost predicate Adds(bit: Bit, path: string, rootsThere: nat, more: seq<Output>) {
    if bit == InUnmount then more == [Reset] else Tells(bit, path, rootsThere, more)
  }

  lemma AddsTell(bit: Bit, path: string, n: nat, more: seq<Output>)
    requires Adds(bit, path, n, more)
    ensures Tells(bit, path, n, ReportsOf(more)) && (Reset in more <==> bit == InUnmount)
  {
    if bit == InUnmount {
      assert more[..0] == [];
    } else {
      assert forall i | 0 <= i < |more| :: more[i].Report?;
      AllReports(more);
    }
  }

  lemma CallbackAdds(m: Monitor, path: string, bit: Bit)
    requires Valid(m.inotify)
    ensures var t := Callback(m, path, {bit}).inotify;
      m.inotify.out <= t.out && Adds(bit, path, RootsAt(m.roots, path), Since(m.inotify, t))
  {
    var t := Callback(m, path, {bit}).inotify;
    if bit == InDeleteSelf || bit == InMoveSelf {
      SelfBitsReportNothing(m, path, bit);
      RemovalTells(m.(inotify := Emit(m.inotify, [])), path, 0);
      assert Since(m.inotify, t) == Deletes(path, RootsAt(m.roots, path));
    } else if bit == InUnmount {
      assert Reports(path, {bit}) == [];
      assert t.out == m.inotify.out + [] + [Reset];
      assert Since(m.inotify, t) == [Reset];
    } else {
      assert t.out == m.inotify.out + Reports(path, {bit});
      assert Since(m.inotify, t) == Reports(path, {bit});
    }
  }

  lemma CallbackTells(m: Monitor, path: string, bit: Bit)
    requires Valid(m.inotify)
    ensures var t := Callback(m, path, {bit}).inotify;
      && m.inotify.out <= t.out
      && Tells(bit, path, RootsAt(m.roots, path), ReportsOf(Since(m.inotify, t)))
      && (Reset in Since(m.inotify, t) <==> bit == InUnmount)
  {
    CallbackAdds(m, path, bit);
    AddsTell(bit, path, RootsAt(m.roots, path), Since(m.inotify, Callback(m, path, {bit}).inotify));
  }

  lemma SelfBitsReportNothing(m: Monitor, path: string, bit: Bit)
    requires Valid(m.inotify) && (bit == InDeleteSelf || bit == InMoveSelf)
    ensures Callback(m, path, {bit}) == CheckRootRemoval(m.(inotify := Emit(m.inotify, [])), path, 0)
    ensures RootsAt(m.roots[..0], path) == 0 && m.inotify.out + [] == m.inotify.out
  {
    assert Reports(path, {bit}) == [];
  }

  /** Every event about a watched object is reported as it should be, and so is the end of a mount; other events
      are not reported. */
  lemma EventTells(m: Monitor, ev: Event, bit: Bit, w: World)
    requires Valid(m.inotify) && KernelEvent(ev) && ev.mask == {bit}
    ensures var t := ProcessEvent(m, ev, w).0.inotify;
      match TableGet(m.inotify, ev.wd)
      case None => t == m.inotify
      case Some(p) =>
        var path := EventPath(m.inotify, p, ev.name);
        && m.inotify.out <= t.out
        && Tells(bit, path, RootsAt(m.roots, path), ReportsOf(Since(m.inotify, t)))
        && (Reset in Since(m.inotify, t) <==> bit == InUnmount)
  {
    if TableGet(m.inotify, ev.wd).Some? {
      var p := TableGet(m.inotify, ev.wd).value;
      var path := EventPath(m.inotify, p, ev.name);
      assert NodeOk(m.inotify, p);
      CallbackTells(m, path, bit);
      var s := Callback(m, path, ev.mask).inotify;
      if ev.isDir && ChangesTree(ev.mask) {
        CallbackFrame(m, path, ev.mask);
        UpdateTells(m.inotify, s, p, ev.mask, path, w);
      }
    }
  }

  lemma UpdateTells(s0: Inotify, s: Inotify, p: Ptr, mask: set<Bit>, path: string, w: World)
    requires Valid(s) && NulFree(path) && p in s.nodes && s0.out <= s.out && ChangesTree(mask)
    ensures var t := UpdatedTree(s, p, mask, path, w).0;
      && s0.out <= t.out
      && ReportsOf(Since(s0, t)) == ReportsOf(Since(s0, s))
      && (Reset in Since(s0, t) <==> Reset in Since(s0, s))
  {
    var t := UpdatedTree(s, p, mask, path, w).0;
    if InCreate in mask || InMovedTo in mask {
      WalkTreeSays(s, path, Some(p), true, [], w);
    } else {
      assert t.out == s.out;
    }
    assert Since(s0, t) == Since(s0, s) + Since(s, t);
    ReportsOfConcat(Since(s0, s), Since(s, t));
  }

  /** A walk writes nothing but the message about the limit. */
  ghost predicate OnlyLimit(s: Inotify, t: Inotify) {
    s.out <= t.out && ReportsOf(Since(s, t)) == []
      && forall i | 0 <= i < |Since(s, t)| :: Since(s, t)[i] == LimitMessage
  }

  lemma OnlyLimitThen(s: Inotify, t: Inotify, u: Inotify)
    requires OnlyLimit(s, t) && OnlyLimit(t, u)
    ensures OnlyLimit(s, u)
  {
    assert Since(s, u) == Since(s, t) + Since(t, u);
    ReportsOfConcat(Since(s, t), Since(t, u));
  }

  lemma SameOutput(s: Inotify, t: Inotify)
    requires t.out == s.out || t.out == s.out + [LimitMessage]
    ensures OnlyLimit(s, t)
  {
    assert Since(s, t) == [] || Since(s, t) == [LimitMessage];
    assert [LimitMessage][..0] == [];
  }

  lemma {:induction false} WalkTreeSays(s: Inotify, path: string, parent: Option<Ptr>, recursive: bool,
          mounts: seq<string>, w: World)
    requires Valid(s) && Live(s, parent) && NulFree(path)
    ensures OnlyLimit(s, WalkTree(s, path, parent, recursive, mounts, w).0)
    decreases if |path| < PATH_MAX then PATH_MAX - |path| else 0, 1, 0
  {
    if Crosses(path, mounts) || (recursive && w.opendir(path).NotOpened?) {
      SameOutput(s, s);
    } else {
      var (t, id) := AddWatch(s, path, parent, w);
      SameOutput(s, t);
      if recursive && 0 <= id {
        var entries := w.opendir(path).entries;
        WalkEntriesSay(t, path, id, entries, mounts, w);
        OnlyLimitThen(s, t, WalkEntries(t, path, id, entries, mounts, w).0);
      }
    }
  }

  lemma {:induction false} WalkEntriesSay(s: Inotify, path: string, id: int, entries: seq<Entry>, mounts: seq<string>,
          w: World)
    requires Valid(s) && NulFree(path) && |path| < PATH_MAX
    requires forall e | e in entries :: FileName(e.name)
    ensures OnlyLimit(s, WalkEntries(s, path, id, entries, mounts, w).0)
    decreases PATH_MAX - |path|, 0, |entries|
  {
    if entries == [] {
      SameOutput(s, s);
    } else if !Followed(path, entries[0], w) {
      WalkEntriesSay(s, path, id, entries[1..], mounts, w);
    } else {
      assert entries[0] in entries;
      var child := Child(path, entries[0].name);
      var (t, sub) := WalkTree(s, child, TableGet(s, id), true, mounts, w);
      WalkTreeSays(s, child, TableGet(s, id), true, mounts, w);
      if Hard(sub) {
        RemoveReportsNothing(t, id);
        SameOutput(t, Remove(t, id));
        OnlyLimitThen(s, t, Remove(t, id));
      } else {
        WalkEntriesSay(t, path, id, entries[1..], mounts, w);
        OnlyLimitThen(s, t, WalkEntries(t, path, id, entries[1..], mounts, w).0);
      }
    }
  }

  // ---------- the kernel's own account ----------

  ghost function EventKnown(mask: set<Bit>, path: string, rootsThere: nat, known: set<string>): set<string> {
    if InCreate in mask || InMovedTo in mask then known + {path}
    else if InDelete in mask || InMovedFrom in mask then known - {path}
    else if (InDeleteSelf in mask || InMoveSelf in mask) && rootsThere > 0 then known - {path}
    else known
  }

  /** The paths known after one turn, by what the event or the poll says. */
  ghost function TurnKnown(m: Monitor, step: Step, known: set<string>): set<string>
    requires Inv(m)
  {
    match step
    case RootsCommand(_, _, _) => known
    case InotifyInput(ev, _) =>
      (match TableGet(m.inotify, ev.wd)
       case None => known
       case Some(p) =>
         var path := EventPath(m.inotify, p, ev.name);
         EventKnown(ev.mask, path, RootsAt(m.roots, path), known))
    case Timeout(seen, _) =>
      known + set k: nat | k < |m.roots| && m.roots[k].id < 0 && seen(k) :: Unflatten(m.roots[k].path)
  }

  ghost function RunKnown(m: Monitor, steps: seq<Step>, known: set<string>): set<string>
    requires Inv(m) && forall step | step in steps :: StepOk(step)
    decreases |steps|
  {
    if steps == [] then known
    else
      assert steps[0] in steps;
      var (t, ok) := Turn(m, steps[0]);
      if ok then RunKnown(t, steps[1..], TurnKnown(m, steps[0], known)) else TurnKnown(m, steps[0], known)
  }

  lemma {:induction false} KnownOfDeletes(n: nat, path: string, known: set<string>)
    ensures Known(Deletes(path, n), known) == if n == 0 then known else known - {path}
  {
    if n > 0 {
      KnownOfDeletes(n - 1, path, known);
      assert Deletes(path, n)[..n - 1] == Deletes(path, n - 1);
    }
  }

  lemma KnownOfOneEvent(bit: Bit, path: string, n: nat, said: seq<Output>, known: set<string>)
    requires Tells(bit, path, n, said)
    ensures Known(said, known) == EventKnown({bit}, path, n, known)
  {
    match bit
    case InCreate | InMovedTo =>
      assert said[..1] == [Report(CREATE, path)] && said[..1][..0] == [];
      assert Known(said[..1], known) == Known(said[..1][..0], known) + {path};
    case InDeleteSelf | InMoveSelf => KnownOfDeletes(n, path, known);
    case InUnmount =>
    case _ => assert said[..0] == [];
  }

  lemma {:induction false} KnownOfCreates(notes: seq<Note>, roots: seq<Root>, known: set<string>)
    requires forall n | n in notes :: n.Created? && n.root < |roots|
    ensures Known(NoteReports(notes, roots), known) == known + set n | n in notes :: Unflatten(roots[n.root].path)
  {
    if notes != [] {
      var before, n := notes[..|notes| - 1], notes[|notes| - 1];
      var path := Unflatten(roots[n.root].path);
      assert n in notes && forall x | x in before :: x in notes;
      KnownOfCreates(before, roots, known);
      KnownConcat(NoteReports(before, roots), NoteReport(n, roots), known);
      KnownOfOneEvent(InCreate, path, 0, NoteReport(n, roots), Known(NoteReports(before, roots), known));
      assert forall x | x in notes :: x in before || x == n;
    }
  }

  lemma {:induction false} InNotesOf(notes: seq<Note>, n: Note)
    ensures n in notes <==> n in NotesOf(notes, n.root)
    ensures forall x, k | x in NotesOf(notes, k) :: x in notes && x.root == k
  {
    if notes != [] {
      InNotesOf(notes[..|notes| - 1], n);
      assert notes == notes[..|notes| - 1] + [notes[|notes| - 1]];
    }
  }

  /** The notes of a timeout are those of the roots that are missing and exist again. */
  lemma TimeoutNotes(m: Monitor, seen: nat -> bool, ws: nat -> World)
    requires Inv(m)
    ensures var t := Turn(m, Timeout(seen, ws)).0;
      && m.notes <= t.notes
      && var notes := t.notes[|m.notes|..];
         && (forall n | n in notes :: n.Created? && n.root < |m.roots| && m.roots[n.root].id < 0 && seen(n.root))
         && (forall k: nat | k < |m.roots| && m.roots[k].id < 0 && seen(k) :: exists n :: n in notes && n.root == k)
  {
    var t := Turn(m, Timeout(seen, ws)).0;
    NothingTold(m);
    RestorationTold(m, m, seen, ws, 0, []);
    var notes := t.notes[|m.notes|..];
    forall n | n in notes
      ensures n.Created? && n.root < |m.roots| && m.roots[n.root].id < 0 && seen(n.root)
    {
      TimeoutNotesIff(m, seen, ws, n.root);
      InNotesOf(notes, n);
    }
    forall k: nat | k < |m.roots| && m.roots[k].id < 0 && seen(k) ensures exists n :: n in notes && n.root == k {
      TimeoutNotesIff(m, seen, ws, k);
      InNotesOf(notes, Created(k, 0 <= t.roots[k].id));
    }
  }

  // ---------- runs ----------

  /** All reported paths are C strings. */
  ghost predicate CleanReports(out: seq<Output>) {
    forall o | o in out && o.Report? :: NulFree(o.path)
  }

  lemma {:induction false} InReportsOf(out: seq<Output>, o: Output)
    ensures o in ReportsOf(out) <==> o in out && o.Report?
  {
    if out != [] {
      InReportsOf(out[..|out| - 1], o);
      assert out == out[..|out| - 1] + [out[|out| - 1]];
    }
  }

  lemma CleanByReports(out: seq<Output>)
    requires CleanReports(ReportsOf(out))
    ensures CleanReports(out)
  {
    forall o | o in out && o.Report? ensures NulFree(o.path) { InReportsOf(out, o); }
  }

  /** What one turn makes known, and that its output can be read. */
  ghost predicate TurnSays(m: Monitor, step: Step, t: Monitor)
    requires Inv(m)
  {
    && m.inotify.out <= t.inotify.out && CleanReports(Since(m.inotify, t.inotify))
    && forall known :: Known(Since(m.inotify, t.inotify), known) == TurnKnown(m, step, known)
  }

  lemma EventSays(m: Monitor, ev: Event, w: World)
    requires Inv(m) && KernelEvent(ev)
    ensures TurnSays(m, InotifyInput(ev, w), ProcessEvent(m, ev, w).0)
  {
    if TableGet(m.inotify, ev.wd) == None {
      UnwatchedEventSays(m, ev, w);
    } else {
      var p := TableGet(m.inotify, ev.wd).value;
      if bit :| bit in ev.mask {
        assert ev.mask == {bit};
        BitSays(m, ev, bit, p, w);
      } else {
        EmptyEventSays(m, ev, w);
      }
    }
  }

  lemma UnwatchedEventSays(m: Monitor, ev: Event, w: World)
    requires Inv(m) && KernelEvent(ev) && TableGet(m.inotify, ev.wd) == None
    ensures TurnSays(m, InotifyInput(ev, w), ProcessEvent(m, ev, w).0)
  {
    assert Since(m.inotify, m.inotify) == [];
  }

  lemma BitSays(m: Monitor, ev: Event, bit: Bit, p: Ptr, w: World)
    requires Inv(m) && KernelEvent(ev) && TableGet(m.inotify, ev.wd) == Some(p) && ev.mask == {bit}
    ensures TurnSays(m, InotifyInput(ev, w), ProcessEvent(m, ev, w).0)
  {
    var path := EventPath(m.inotify, p, ev.name);
    var more := Since(m.inotify, ProcessEvent(m, ev, w).0.inotify);
    assert NodeOk(m.inotify, p);
    EventTells(m, ev, bit, w);
    TellsClean(bit, path, RootsAt(m.roots, path), ReportsOf(more));
    CleanByReports(more);
    forall known ensures Known(more, known) == TurnKnown(m, InotifyInput(ev, w), known) {
      OneBitKnown(m, ev, bit, p, w, more, known);
    }
  }

  lemma OneBitKnown(m: Monitor, ev: Event, bit: Bit, p: Ptr, w: World, more: seq<Output>, known: set<string>)
    requires Inv(m) && TableGet(m.inotify, ev.wd) == Some(p) && ev.mask == {bit}
    requires var path := EventPath(m.inotify, p, ev.name); Tells(bit, path, RootsAt(m.roots, path), ReportsOf(more))
    ensures Known(more, known) == TurnKnown(m, InotifyInput(ev, w), known)
  {
    var path := EventPath(m.inotify, p, ev.name);
    KnownByReports(more, known);
    KnownOfOneEvent(bit, path, RootsAt(m.roots, path), ReportsOf(more), known);
  }

  lemma EmptyEventSays(m: Monitor, ev: Event, w: World)
    requires Inv(m) && KernelEvent(ev) && ev.mask == {}
    ensures Since(m.inotify, ProcessEvent(m, ev, w).0.inotify) == []
      && m.inotify.out <= ProcessEvent(m, ev, w).0.inotify.out
  {
  }

  lemma TellsClean(bit: Bit, path: string, n: nat, said: seq<Output>)
    requires Tells(bit, path, n, said) && NulFree(path)
    ensures CleanReports(said)
  {
  }

  lemma {:induction false} NoteReportsClean(notes: seq<Note>, roots: seq<Root>)
    requires RootsOk(roots)
    ensures CleanReports(NoteReports(notes, roots))
  {
    if notes != [] { NoteReportsClean(notes[..|notes| - 1], roots); }
  }

  lemma TimeoutSays(m: Monitor, seen: nat -> bool, ws: nat -> World)
    requires Inv(m)
    ensures TurnSays(m, Timeout(seen, ws), Turn(m, Timeout(seen, ws)).0)
  {
    var t := Turn(m, Timeout(seen, ws)).0;
    TimeoutNotes(m, seen, ws);
    var more, notes := Since(m.inotify, t.inotify), t.notes[|m.notes|..];
    NothingTold(m);
    RestorationTold(m, m, seen, ws, 0, []);
    assert [] + NoteReports(notes, m.roots) == NoteReports(notes, m.roots);
    ReportedSince(m.inotify, t.inotify, NoteReports(notes, m.roots));
    NoteReportsClean(notes, m.roots);
    CleanByReports(more);
    forall known ensures Known(more, known) == TurnKnown(m, Timeout(seen, ws), known) {
      KnownByReports(more, known);
      KnownOfCreates(notes, m.roots, known);
    }
  }

  lemma TurnIsReplayed(m: Monitor, step: Step)
    requires Inv(m) && StepOk(step)
    ensures TurnSays(m, step, Turn(m, step).0)
  {
    match step
    case InotifyInput(ev, w) => EventSays(m, ev, w);
    case Timeout(seen, ws) => TimeoutSays(m, seen, ws);
    case RootsCommand(newRoots, mounts, ws) =>
      var t := Turn(m, step).0;
      UpdateRootsReportsNothing(m, newRoots, mounts, ws);
      ReportedSince(m.inotify, t.inotify, []);
      CleanByReports(Since(m.inotify, t.inotify));
      forall known ensures Known(Since(m.inotify, t.inotify), known) == known {
        KnownByReports(Since(m.inotify, t.inotify), known);
      }
  }

  lemma SaysThen(s: Inotify, t: Inotify, u: Inotify, known: set<string>)
    requires s.out <= t.out && t.out <= u.out && CleanReports(Since(s, t)) && CleanReports(Since(t, u))
    ensures s.out <= u.out && CleanReports(Since(s, u))
    ensures Known(Since(s, u), known) == Known(Since(t, u), Known(Since(s, t), known))
  {
    assert Since(s, u) == Since(s, t) + Since(t, u);
    KnownConcat(Since(s, t), Since(t, u), known);
  }

  /** Over any run, replaying the output gives the paths that the kernel's own events and the polls of missing roots
      give, and all reported paths can be written. */
  lemma {:induction false} RunReplays(m: Monitor, steps: seq<Step>, known: set<string>)
    requires Inv(m) && forall step | step in steps :: StepOk(step)
    ensures var t := Run(m, steps);
      && m.inotify.out <= t.inotify.out && CleanReports(Since(m.inotify, t.inotify))
      && Known(Since(m.inotify, t.inotify), known) == RunKnown(m, steps, known)
    decreases |steps|
  {
    if steps == [] {
      assert Since(m.inotify, m.inotify) == [];
    } else {
      FirstTurn(m, steps);
      TurnIsReplayed(m, steps[0]);
      var (t, ok) := Turn(m, steps[0]);
      if ok {
        var now := TurnKnown(m, steps[0], known);
        RunReplays(t, steps[1..], now);
        SaysThen(m.inotify, t.inotify, Run(t, steps[1..]).inotify, known);
      }
    }
  }

  /** No unwatchable path is "#" or contains a newline. */
  ghost predicate ListsFit(out: seq<Output>) {
    forall o | o in out && o.Unwatchable? :: forall line | line in o.lines :: ListLine(line)
  }

  lemma CleanReadsBackIff(more: seq<Output>)
    requires CleanReports(more)
    ensures ReadOutput(RenderAll(more)) == Some(more) <==> ListsFit(more)
  {
    OutputReadsBackIff(more);
  }

  /** Over any run, the text written is read back as the output if and only if no unwatchable path breaks its list. */
  lemma RunReadsBackIff(m: Monitor, steps: seq<Step>, more: seq<Output>)
    requires Inv(m) && (forall step | step in steps :: StepOk(step)) && more == Since(m.inotify, Run(m, steps).inotify)
    ensures ReadOutput(RenderAll(more)) == Some(more) <==> ListsFit(more)
  {
    RunReplays(m, steps, {});
    CleanReadsBackIff(more);
  }
}
