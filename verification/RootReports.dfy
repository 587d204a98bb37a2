/** The reports about roots over a run: DELETE and CREATE alternate with the root's presence. */
module RootReports {
  import opened Options
  import opened Posix
  import opened Paths
  import opened Protocol
  import opened Watches
  import opened Walk
  import opened MainLoop
  import opened Runs

  /** Follow a root through the reports about it: only a present root is reported deleted, only a
      missing one created, and it is present afterwards if it could be watched. None on any other report. */
  ghost function Follow(present: bool, notes: seq<Note>, root: nat): Option<bool> {
    if notes == [] then Some(present)
    else
      var now := Follow(present, notes[..|notes| - 1], root);
      match notes[|notes| - 1]
      case Deleted(r) => if r != root then now else if now == Some(true) then Some(false) else None
      case Created(r, ok) => if r != root then now else if now == Some(false) then Some(ok) else None
  }

  ghost function NotesOf(notes: seq<Note>, root: nat): seq<Note> {
    if notes == [] then []
    else NotesOf(notes[..|notes| - 1], root) + if notes[|notes| - 1].root == root then [notes[|notes| - 1]] else []
  }

  /** Since `m`, the root list kept its length and paths, and every report fits the ids before and after. */
  ghost predicate Tracks(m: Monitor, t: Monitor) {
    && |t.roots| == |m.roots|
    && m.notes <= t.notes
    && forall i: nat {:trigger TracksRoot(m, t, i)} | i < |m.roots| :: TracksRoot(m, t, i)
  }

  ghost predicate TracksRoot(m: Monitor, t: Monitor, i: nat)
    requires i < |m.roots| == |t.roots| && m.notes <= t.notes
  {
    && t.roots[i].path == m.roots[i].path
    && Follow(0 <= m.roots[i].id, t.notes[|m.notes|..], i) == Some(0 <= t.roots[i].id)
  }

  lemma TracksSelf(m: Monitor)
    ensures Tracks(m, m)
  {
    forall i: nat | i < |m.roots| ensures TracksRoot(m, m, i) { assert m.notes[|m.notes|..] == []; }
  }

  lemma NoteTracked(m: Monitor, t: Monitor, u: Monitor, i: nat, id: int, note: Note)
    requires Tracks(m, t) && i < |m.roots|
    requires u.roots == t.roots[i := t.roots[i].(id := id)] && u.notes == t.notes + [note]
    requires note == if 0 <= t.roots[i].id then Deleted(i) else Created(i, 0 <= id)
    requires 0 <= t.roots[i].id ==> id < 0
    ensures Tracks(m, u)
  {
    var before, after := t.notes[|m.notes|..], u.notes[|m.notes|..];
    assert after == before + [note] && after[..|after| - 1] == before;
    forall j: nat | j < |m.roots| ensures TracksRoot(m, u, j) { assert TracksRoot(m, t, j); }
  }

  lemma SameRootsTracked(m: Monitor, t: Monitor, u: Monitor)
    requires Tracks(m, t) && u.roots == t.roots && u.notes == t.notes
    ensures Tracks(m, u)
  {
    forall j: nat | j < |m.roots| ensures TracksRoot(m, u, j) { assert TracksRoot(m, t, j); }
  }

  lemma {:induction false} RemovalTracks(m: Monitor, t: Monitor, path: string, i: nat)
    requires Valid(t.inotify) && Tracks(m, t) && i <= |t.roots|
    ensures Tracks(m, CheckRootRemoval(t, path, i))
    decreases |t.roots| - i
  {
    if i < |t.roots| {
      if !RootIs(t.roots[i], path) {
        RemovalTracks(m, t, path, i + 1);
      } else {
        var u := RootRemoved(t, i, path);
        NoteTracked(m, t, u, i, -1, Deleted(i));
        RemovalTracks(m, u, path, i + 1);
      }
    }
  }

  lemma {:induction false} RestorationTracks(m: Monitor, t: Monitor, seen: nat -> bool, ws: nat -> World, i: nat)
    requires Valid(t.inotify) && RootsOk(t.roots) && Tracks(m, t) && i <= |t.roots|
    ensures Tracks(m, CheckMissingRoots(t, seen, ws, i))
    decreases |t.roots| - i
  {
    if i < |t.roots| {
      if 0 <= t.roots[i].id || !seen(i) {
        RestorationTracks(m, t, seen, ws, i + 1);
      } else {
        var u := RootRestored(t, i, ws(i));
        NoteTracked(m, t, u, i, u.roots[i].id, Created(i, 0 <= u.roots[i].id));
        RestorationTracks(m, u, seen, ws, i + 1);
      }
    }
  }

  lemma CallbackTracks(m: Monitor, t: Monitor, path: string, mask: set<Bit>)
    requires Valid(t.inotify) && Tracks(m, t)
    ensures Tracks(m, Callback(t, path, mask))
  {
    var u := t.(inotify := Emit(t.inotify, Reports(path, mask)));
    SameRootsTracked(m, t, u);
    if InDeleteSelf in mask || InMoveSelf in mask {
      RemovalTracks(m, u, path, 0);
    } else {
      SameRootsTracked(m, t, Callback(t, path, mask));
    }
  }

  lemma EventTracks(m: Monitor, t: Monitor, ev: Event, w: World)
    requires Valid(t.inotify) && KernelEvent(ev) && Tracks(m, t)
    ensures Tracks(m, ProcessEvent(t, ev, w).0)
  {
    if TableGet(t.inotify, ev.wd).Some? {
      var path := EventPath(t.inotify, TableGet(t.inotify, ev.wd).value, ev.name);
      assert NodeOk(t.inotify, TableGet(t.inotify, ev.wd).value);
      CallbackTracks(m, t, path, ev.mask);
      SameRootsTracked(m, Callback(t, path, ev.mask), ProcessEvent(t, ev, w).0);
    }
  }

  lemma TurnTracks(m: Monitor, t: Monitor, step: Step)
    requires Inv(t) && StepOk(step) && !step.RootsCommand? && Tracks(m, t)
    ensures Tracks(m, Turn(t, step).0)
  {
    match step
    case Timeout(seen, ws) => RestorationTracks(m, t, seen, ws, 0);
    case InotifyInput(ev, w) => EventTracks(m, t, ev, w);
  }

  /** Over any run of events and timeouts, every root's reports follow its presence. */
  lemma {:induction false} RunTracks(m: Monitor, t: Monitor, steps: seq<Step>)
    requires Inv(t) && Tracks(m, t)
    requires forall step | step in steps :: StepOk(step) && !step.RootsCommand?
    ensures Tracks(m, Run(t, steps))
    decreases |steps|
  {
    if steps != [] {
      assert steps[0] in steps;
      TurnTracks(m, t, steps[0]);
      if Turn(t, steps[0]).1 { RunTracks(m, Turn(t, steps[0]).0, steps[1..]); }
    }
  }

  ghost predicate Alternates(notes: seq<Note>) {
    forall k | 0 <= k < |notes| - 1 :: DiffersFromNext(notes, k)
  }

  ghost predicate DiffersFromNext(notes: seq<Note>, k: int)
    requires 0 <= k < |notes| - 1
  {
    notes[k].Deleted? != notes[k + 1].Deleted?
  }

  lemma {:induction false} FollowedNotes(present: bool, notes: seq<Note>, root: nat)
    requires Follow(present, notes, root).Some?
    ensures var own := NotesOf(notes, root);
      && (own == [] ==> Follow(present, notes, root) == Some(present))
      && (own != [] ==> var last := own[|own| - 1]; Follow(present, notes, root) == Some(last.Created? && last.ok))
      && (own != [] ==> (own[0].Deleted? <==> present))
      && forall k | 0 <= k < |own| - 1 :: (DiffersFromNext(own, k) <==> (own[k].Created? ==> own[k].ok))
  {
    if notes != [] { FollowedNotes(present, notes[..|notes| - 1], root); }
  }

  /** The reports about a root strictly alternate if and only if no re-watch failed before the last of them. */
  lemma ReportsAlternateIff(m: Monitor, steps: seq<Step>, root: nat)
    requires Inv(m) && root < |m.roots|
    requires forall step | step in steps :: StepOk(step) && !step.RootsCommand?
    ensures var t := Run(m, steps);
      && |t.roots| == |m.roots| && t.roots[root].path == m.roots[root].path
      && m.notes <= t.notes
      && var own := NotesOf(t.notes[|m.notes|..], root);
         && (own != [] ==> (own[0].Deleted? <==> 0 <= m.roots[root].id))
         && (Alternates(own) <==> forall k | 0 <= k < |own| - 1 && own[k].Created? :: own[k].ok)
  {
    TracksSelf(m);
    RunTracks(m, m, steps);
    assert TracksRoot(m, Run(m, steps), root);
    var notes := Run(m, steps).notes[|m.notes|..];
    FollowedNotes(0 <= m.roots[root].id, notes, root);
  }

  // ---------- which roots are noted ----------

  lemma {:induction false} NotesOfConcat(a: seq<Note>, b: seq<Note>, root: nat)
    ensures NotesOf(a + b, root) == NotesOf(a, root) + NotesOf(b, root)
  {
    if b == [] {
      assert a + b == a;
    } else {
      assert (a + b)[..|a + b| - 1] == a + b[..|b| - 1];
      NotesOfConcat(a, b[..|b| - 1], root);
    }
  }

  lemma NotesOfOne(note: Note, root: nat)
    ensures NotesOf([note], root) == if note.root == root then [note] else []
  {
    assert [note][..0] == [];
  }

  /** The notes about root `k` that `u` has and `t` has not, which are the last. */
  ghost predicate Noted(t: Monitor, u: Monitor, k: nat, notes: seq<Note>) {
    t.notes <= u.notes && NotesOf(u.notes[|t.notes|..], k) == notes
  }

  lemma NothingNoted(t: Monitor, k: nat)
    ensures Noted(t, t, k, [])
  {
    assert t.notes[|t.notes|..] == [];
  }

  lemma NotedThen(t: Monitor, u: Monitor, v: Monitor, k: nat, a: seq<Note>, b: seq<Note>)
    requires Noted(t, u, k, a) && Noted(u, v, k, b)
    ensures Noted(t, v, k, a + b)
  {
    assert v.notes[|t.notes|..] == u.notes[|t.notes|..] + v.notes[|u.notes|..];
    NotesOfConcat(u.notes[|t.notes|..], v.notes[|u.notes|..], k);
  }

  lemma OneNoted(t: Monitor, u: Monitor, note: Note, k: nat)
    requires u.notes == t.notes + [note]
    ensures Noted(t, u, k, if note.root == k then [note] else [])
  {
    assert u.notes[|t.notes|..] == [note];
    NotesOfOne(note, k);
  }

  /** From root `i` on, exactly the missing roots that exist again are noted, and the others left as they are. */
  ghost predicate RestoredFrom(t: Monitor, u: Monitor, seen: nat -> bool, i: nat, k: nat) {
    && k < |t.roots| == |u.roots| && u.roots[k].path == t.roots[k].path
    && if i <= k && t.roots[k].id < 0 && seen(k) then Noted(t, u, k, [Created(k, 0 <= u.roots[k].id)])
       else Noted(t, u, k, []) && u.roots[k] == t.roots[k]
  }

  lemma {:induction false} RestorationNotes(t: Monitor, seen: nat -> bool, ws: nat -> World, i: nat, k: nat)
    requires Valid(t.inotify) && RootsOk(t.roots) && i <= |t.roots| && k < |t.roots|
    ensures RestoredFrom(t, CheckMissingRoots(t, seen, ws, i), seen, i, k)
    decreases |t.roots| - i
  {
    var v := CheckMissingRoots(t, seen, ws, i);
    if i == |t.roots| {
      NothingNoted(t, k);
      assert v == t;
    } else if 0 <= t.roots[i].id || !seen(i) {
      RestorationNotes(t, seen, ws, i + 1, k);
      assert v == CheckMissingRoots(t, seen, ws, i + 1);
      RestorationSkips(t, v, seen, i, k);
    } else {
      var u := RootRestored(t, i, ws(i));
      RestoredNoted(t, i, ws(i), k);
      RestorationNotes(u, seen, ws, i + 1, k);
      RestorationStep(t, v, seen, ws(i), i, k);
    }
  }

  lemma RestorationSkips(t: Monitor, v: Monitor, seen: nat -> bool, i: nat, k: nat)
    requires i < |t.roots| && (0 <= t.roots[i].id || !seen(i)) && RestoredFrom(t, v, seen, i + 1, k)
    ensures RestoredFrom(t, v, seen, i, k)
  {
  }

  lemma RestorationStep(t: Monitor, v: Monitor, seen: nat -> bool, w: World, i: nat, k: nat)
    requires Valid(t.inotify) && RootsOk(t.roots) && k < |t.roots|
    requires i < |t.roots| && t.roots[i].id < 0 && seen(i) && RestoredFrom(RootRestored(t, i, w), v, seen, i + 1, k)
    ensures RestoredFrom(t, v, seen, i, k)
  {
    var u := RootRestored(t, i, w);
    RestoredNoted(t, i, w, k);
    var a := if k == i then [Created(k, 0 <= u.roots[k].id)] else [];
    var b := if i < k && t.roots[k].id < 0 && seen(k) then [Created(k, 0 <= v.roots[k].id)] else [];
    NotedThen(t, u, v, k, a, b);
    assert a + [] == a && [] + b == b;
  }

  lemma RestoredNoted(t: Monitor, i: nat, w: World, k: nat)
    requires Valid(t.inotify) && RootsOk(t.roots) && i < |t.roots| && k < |t.roots|
    ensures var u := RootRestored(t, i, w);
      && RootsOk(u.roots) && (k != i ==> u.roots[k] == t.roots[k]) && u.roots[k].path == t.roots[k].path
      && Noted(t, u, k, if k == i then [Created(k, 0 <= u.roots[k].id)] else [])
  {
    var u := RootRestored(t, i, w);
    OneNoted(t, u, Created(i, 0 <= u.roots[i].id), k);
  }

  /** From root `i` on, exactly the present roots with the path are noted and marked missing. */
  lemma {:induction false} RemovalNotes(t: Monitor, path: string, i: nat, k: nat)
    requires Valid(t.inotify) && i <= |t.roots| && k < |t.roots|
    ensures var u := CheckRootRemoval(t, path, i);
      && |u.roots| == |t.roots| && u.roots[k].path == t.roots[k].path
      && if i <= k && 0 <= t.roots[k].id && path == Unflatten(t.roots[k].path)
         then Noted(t, u, k, [Deleted(k)]) && u.roots[k].id < 0
         else Noted(t, u, k, []) && u.roots[k] == t.roots[k]
    decreases |t.roots| - i
  {
    if i == |t.roots| {
      NothingNoted(t, k);
    } else if !RootIs(t.roots[i], path) {
      RemovalNotes(t, path, i + 1, k);
    } else {
      var u := RootRemoved(t, i, path);
      RemovalNotes(u, path, i + 1, k);
      OneNoted(t, u, Deleted(i), k);
      var v := CheckRootRemoval(u, path, i + 1);
      if k == i {
        NotedThen(t, u, v, k, [Deleted(k)], []);
        assert [Deleted(k)] + [] == [Deleted(k)];
      } else if i < k && RootIs(t.roots[k], path) {
        NotedThen(t, u, v, k, [], [Deleted(k)]);
        assert [] + [Deleted(k)] == [Deleted(k)];
      } else {
        NotedThen(t, u, v, k, [], []);
      }
    }
  }

  /** A timeout re-attaches a root if and only if it is missing and exists again. */
  lemma TimeoutNotesIff(m: Monitor, seen: nat -> bool, ws: nat -> World, k: nat)
    requires Inv(m) && k < |m.roots|
    ensures var t := Turn(m, Timeout(seen, ws)).0;
      && |t.roots| == |m.roots| && t.roots[k].path == m.roots[k].path
      && (m.roots[k].id < 0 && seen(k) ==> Noted(m, t, k, [Created(k, 0 <= t.roots[k].id)]))
      && (!(m.roots[k].id < 0 && seen(k)) ==> Noted(m, t, k, []) && t.roots[k] == m.roots[k])
  {
    RestorationNotes(m, seen, ws, 0, k);
  }

  /** The event is about a watched object itself, which is gone from its path `path`. */
  ghost predicate GoneFrom(m: Monitor, ev: Event, path: string)
    requires Valid(m.inotify)
  {
    && TableGet(m.inotify, ev.wd).Some?
    && (InDeleteSelf in ev.mask || InMoveSelf in ev.mask)
    && path == EventPath(m.inotify, TableGet(m.inotify, ev.wd).value, ev.name)
  }

  /** An event removes a root if and only if the root is present and the object gone from its path. */
  lemma EventNotesIff(m: Monitor, ev: Event, w: World, k: nat)
    requires Valid(m.inotify) && KernelEvent(ev) && k < |m.roots|
    ensures var t := ProcessEvent(m, ev, w).0;
      && |t.roots| == |m.roots| && t.roots[k].path == m.roots[k].path
      && if 0 <= m.roots[k].id && GoneFrom(m, ev, Unflatten(m.roots[k].path))
         then Noted(m, t, k, [Deleted(k)]) && t.roots[k].id < 0
         else Noted(m, t, k, []) && t.roots[k] == m.roots[k]
  {
    NothingNoted(m, k);
    if TableGet(m.inotify, ev.wd).Some? {
      var path := EventPath(m.inotify, TableGet(m.inotify, ev.wd).value, ev.name);
      assert NodeOk(m.inotify, TableGet(m.inotify, ev.wd).value);
      RemovalNotes(m.(inotify := Emit(m.inotify, Reports(path, ev.mask))), path, 0, k);
    }
  }

  /** The notes that a turn makes about root `k`. */
  ghost function TurnNotes(m: Monitor, step: Step, k: nat): seq<Note>
    requires Inv(m) && StepOk(step) && k < |m.roots|
  {
    match step
    case RootsCommand(_, _, _) => []
    case InotifyInput(ev, _) =>
      if 0 <= m.roots[k].id && GoneFrom(m, ev, Unflatten(m.roots[k].path)) then [Deleted(k)] else []
    case Timeout(seen, _) =>
      var t := Turn(m, step).0;
      if m.roots[k].id < 0 && seen(k) && k < |t.roots| then [Created(k, 0 <= t.roots[k].id)] else []
  }

  ghost function RunNotes(m: Monitor, steps: seq<Step>, k: nat): seq<Note>
    requires Inv(m) && (forall step | step in steps :: StepOk(step)) && k < |m.roots|
    decreases |steps|
  {
    if steps == [] then []
    else
      assert steps[0] in steps;
      var (t, ok) := Turn(m, steps[0]);
      TurnNotes(m, steps[0], k) + if ok && k < |t.roots| then RunNotes(t, steps[1..], k) else []
  }

  lemma TurnNotesExactly(m: Monitor, step: Step, k: nat)
    requires Inv(m) && StepOk(step) && !step.RootsCommand? && k < |m.roots|
    ensures var t := Turn(m, step).0;
      && |t.roots| == |m.roots| && Noted(m, t, k, TurnNotes(m, step, k))
      && (0 <= t.roots[k].id <==>
            if TurnNotes(m, step, k) == [] then 0 <= m.roots[k].id else TurnNotes(m, step, k) == [Created(k, true)])
  {
    match step
    case InotifyInput(ev, w) => EventNotesIff(m, ev, w, k);
    case Timeout(seen, ws) => TimeoutNotesIff(m, seen, ws, k);
  }

  /** Over any run of events and timeouts, a root is noted exactly in the turns in which it goes or is re-attached. */
  lemma {:induction false} RunNotesExactly(m: Monitor, steps: seq<Step>, k: nat)
    requires Inv(m) && k < |m.roots| && forall step | step in steps :: StepOk(step) && !step.RootsCommand?
    ensures Noted(m, Run(m, steps), k, RunNotes(m, steps, k))
    decreases |steps|
  {
    if steps == [] {
      NothingNoted(m, k);
    } else {
      FirstTurn(m, steps);
      TurnNotesExactly(m, steps[0], k);
      var (t, ok) := Turn(m, steps[0]);
      if ok { RunNotesExactly(t, steps[1..], k); } else { NothingNoted(t, k); }
      NotedThen(m, t, Run(m, steps), k, TurnNotes(m, steps[0], k), if ok then RunNotes(t, steps[1..], k) else []);
    }
  }

  // ---------- the ledger of notes against the output ----------

  ghost function ReportsOf(out: seq<Output>): seq<Output> {
    if out == [] then []
    else ReportsOf(out[..|out| - 1]) + if out[|out| - 1].Report? then [out[|out| - 1]] else []
  }

  /** What a report about a root looks like in the output. */
  ghost function NoteReport(note: Note, roots: seq<Root>): seq<Output> {
    if |roots| <= note.root then []
    else
      var path := Unflatten(roots[note.root].path);
      match note
      case Deleted(_) => [Report(DELETE, path)]
      case Created(_, _) => [Report(CREATE, path), Report(CHANGE, path)]
  }

  ghost function NoteReports(notes: seq<Note>, roots: seq<Root>): seq<Output> {
    if notes == [] then []
    else NoteReports(notes[..|notes| - 1], roots) + NoteReport(notes[|notes| - 1], roots)
  }

  lemma {:induction false} ReportsOfConcat(a: seq<Output>, b: seq<Output>)
    ensures ReportsOf(a + b) == ReportsOf(a) + ReportsOf(b)
  {
    if b == [] {
      assert a + b == a;
    } else {
      assert (a + b)[..|a + b| - 1] == a + b[..|b| - 1];
      ReportsOfConcat(a, b[..|b| - 1]);
    }
  }

  lemma {:induction false} AllReports(b: seq<Output>)
    requires forall i | 0 <= i < |b| :: b[i].Report?
    ensures ReportsOf(b) == b
  {
    if b != [] {
      AllReports(b[..|b| - 1]);
      assert b == b[..|b| - 1] + [b[|b| - 1]];
    }
  }

  /** `t` has written what `s` had, and then `said` with nothing but other messages in between. */
  ghost predicate Reported(s: Inotify, t: Inotify, said: seq<Output>) {
    s.out <= t.out && ReportsOf(t.out) == ReportsOf(s.out) + said
  }

  lemma ReportedThen(s: Inotify, t: Inotify, u: Inotify, first: seq<Output>, rest: seq<Output>)
    requires Reported(s, t, first) && Reported(t, u, rest)
    ensures Reported(s, u, first + rest)
  {
  }

  lemma EmitReports(s: Inotify, text: seq<Output>)
    requires Valid(s)
    ensures (forall i | 0 <= i < |text| :: text[i].Report?) ==> Reported(s, Emit(s, text), text)
    ensures |text| == 1 && !text[0].Report? ==> Reported(s, Emit(s, text), [])
  {
    ReportsOfConcat(s.out, text);
    if forall i | 0 <= i < |text| :: text[i].Report? { AllReports(text); }
    if |text| == 1 { assert text[..0] == []; }
  }

  lemma RemoveReportsNothing(s: Inotify, wd: int)
    requires Valid(s)
    ensures Remove(s, wd).out == s.out
  {
  }

  lemma AddWatchReportsNothing(s: Inotify, path: string, parent: Option<Ptr>, w: World)
    requires Valid(s) && Live(s, parent) && NulFree(path)
    ensures Reported(s, AddWatch(s, path, parent, w).0, [])
  {
    var t := AddWatch(s, path, parent, w).0;
    assert t.out == s.out || t.out == s.out + [LimitMessage];
    SilentOutput(s.out, LimitMessage);
  }

  lemma SilentOutput(out: seq<Output>, o: Output)
    requires !o.Report?
    ensures ReportsOf(out) == ReportsOf(out) + []
    ensures ReportsOf(out + [o]) == ReportsOf(out) + []
  {
    assert (out + [o])[..|out|] == out;
  }

  lemma {:induction false} WalkTreeReportsNothing(s: Inotify, path: string, parent: Option<Ptr>, recursive: bool,
          mounts: seq<string>, w: World)
    requires Valid(s) && Live(s, parent) && NulFree(path)
    ensures Reported(s, WalkTree(s, path, parent, recursive, mounts, w).0, [])
    decreases if |path| < PATH_MAX then PATH_MAX - |path| else 0, 1, 0
  {
    if !Crosses(path, mounts) && !(recursive && w.opendir(path).NotOpened?) {
      var (t, id) := AddWatch(s, path, parent, w);
      AddWatchReportsNothing(s, path, parent, w);
      if recursive && 0 <= id { WalkEntriesReportNothing(t, path, id, w.opendir(path).entries, mounts, w); }
    }
  }

  lemma {:induction false} WalkEntriesReportNothing(s: Inotify, path: string, id: int, entries: seq<Entry>,
          mounts: seq<string>, w: World)
    requires Valid(s) && NulFree(path) && |path| < PATH_MAX
    requires forall e | e in entries :: FileName(e.name)
    ensures Reported(s, WalkEntries(s, path, id, entries, mounts, w).0, [])
    decreases PATH_MAX - |path|, 0, |entries|
  {
    if entries == [] {
    } else if !Followed(path, entries[0], w) {
      WalkEntriesReportNothing(s, path, id, entries[1..], mounts, w);
    } else {
      assert entries[0] in entries;
      var child := Child(path, entries[0].name);
      var (t, sub) := WalkTree(s, child, TableGet(s, id), true, mounts, w);
      WalkTreeReportsNothing(s, child, TableGet(s, id), true, mounts, w);
      RemoveReportsNothing(t, id);
      if !Hard(sub) { WalkEntriesReportNothing(t, path, id, entries[1..], mounts, w); }
    }
  }

  lemma WatchReportsNothing(s: Inotify, root: string, mounts: seq<string>, w: World)
    requires Valid(s) && NulFree(root)
    ensures Reported(s, Watch(s, root, mounts, w).0, [])
  {
    var path := Unflatten(root);
    if w.stat(path).Found? && w.stat(path).kind != SpecialFile {
      var recursive := path == root && w.stat(path).kind == Directory;
      WalkTreeReportsNothing(s, TrimSlash(path), None, recursive, mounts, w);
    }
  }

  /** Since `m` the program has reported `said`, and then the new notes. */
  ghost predicate Told(m: Monitor, t: Monitor, said: seq<Output>) {
    && |t.roots| == |m.roots|
    && (forall i | 0 <= i < |m.roots| :: t.roots[i].path == m.roots[i].path)
    && m.notes <= t.notes
    && (forall j | |m.notes| <= j < |t.notes| :: t.notes[j].root < |m.roots|)
    && Reported(m.inotify, t.inotify, said + NoteReports(t.notes[|m.notes|..], m.roots))
  }

  lemma NoteReportsOneMore(notes: seq<Note>, note: Note, roots: seq<Root>)
    ensures NoteReports(notes + [note], roots) == NoteReports(notes, roots) + NoteReport(note, roots)
  {
    assert (notes + [note])[..|notes|] == notes;
  }

  lemma NoteTold(m: Monitor, t: Monitor, u: Monitor, said: seq<Output>, note: Note)
    requires Told(m, t, said) && u.notes == t.notes + [note] && note.root < |m.roots|
    requires |u.roots| == |t.roots| && forall i | 0 <= i < |t.roots| :: u.roots[i].path == t.roots[i].path
    requires Reported(t.inotify, u.inotify, NoteReport(note, m.roots))
    ensures Told(m, u, said)
  {
    var before, after := t.notes[|m.notes|..], u.notes[|m.notes|..];
    assert after == before + [note];
    NoteReportsOneMore(before, note, m.roots);
    ReportedThen(m.inotify, t.inotify, u.inotify, said + NoteReports(before, m.roots), NoteReport(note, m.roots));
    assert said + NoteReports(after, m.roots) == said + NoteReports(before, m.roots) + NoteReport(note, m.roots);
  }

  lemma {:induction false} RemovalTold(m: Monitor, t: Monitor, path: string, i: nat, said: seq<Output>)
    requires Valid(t.inotify) && Told(m, t, said) && i <= |t.roots|
    ensures Told(m, CheckRootRemoval(t, path, i), said)
    decreases |t.roots| - i
  {
    if i < |t.roots| {
      if !RootIs(t.roots[i], path) {
        RemovalTold(m, t, path, i + 1, said);
      } else {
        var u := RootRemoved(t, i, path);
        RemoveReportsNothing(t.inotify, t.roots[i].id);
        EmitReports(Remove(t.inotify, t.roots[i].id), [Report(DELETE, path)]);
        NoteTold(m, t, u, said, Deleted(i));
        RemovalTold(m, u, path, i + 1, said);
      }
    }
  }

  lemma RestoredTold(m: Monitor, t: Monitor, i: nat, w: World, said: seq<Output>)
    requires Valid(t.inotify) && Told(m, t, said) && i < |t.roots| && NulFree(t.roots[i].path)
    ensures Told(m, RootRestored(t, i, w), said)
  {
    var u := RootRestored(t, i, w);
    var path := Unflatten(t.roots[i].path);
    var (v, id) := Watch(t.inotify, t.roots[i].path, [], w);
    WatchReportsNothing(t.inotify, t.roots[i].path, [], w);
    EmitReports(v, [Report(CREATE, path), Report(CHANGE, path)]);
    NoteTold(m, t, u, said, Created(i, 0 <= id));
  }

  lemma {:induction false} RestorationTold(m: Monitor, t: Monitor, seen: nat -> bool, ws: nat -> World, i: nat,
          said: seq<Output>)
    requires Valid(t.inotify) && RootsOk(t.roots) && Told(m, t, said) && i <= |t.roots|
    ensures Told(m, CheckMissingRoots(t, seen, ws, i), said)
    decreases |t.roots| - i
  {
    if i < |t.roots| {
      if 0 <= t.roots[i].id || !seen(i) {
        RestorationTold(m, t, seen, ws, i + 1, said);
      } else {
        RestoredTold(m, t, i, ws(i), said);
        RestorationTold(m, RootRestored(t, i, ws(i)), seen, ws, i + 1, said);
      }
    }
  }

  lemma NothingTold(m: Monitor)
    ensures Told(m, m, [])
  {
    assert m.notes[|m.notes|..] == [];
  }

  lemma CallbackTold(m: Monitor, path: string, mask: set<Bit>)
    requires Valid(m.inotify)
    ensures Told(m, Callback(m, path, mask), Reports(path, mask))
  {
    var said := Reports(path, mask);
    var t := m.(inotify := Emit(m.inotify, said));
    assert forall i | 0 <= i < |said| :: said[i].Report?;
    ReportsTold(m, said);
    if InDeleteSelf in mask || InMoveSelf in mask {
      RemovalTold(m, t, path, 0, said);
    } else {
      ResetTold(m, t, said);
    }
  }

  lemma ReportsTold(m: Monitor, said: seq<Output>)
    requires Valid(m.inotify) && forall i | 0 <= i < |said| :: said[i].Report?
    ensures Told(m, m.(inotify := Emit(m.inotify, said)), said)
  {
    EmitReports(m.inotify, said);
    assert m.notes[|m.notes|..] == [] && said + [] == said;
  }

  lemma ResetTold(m: Monitor, t: Monitor, said: seq<Output>)
    requires Valid(t.inotify) && Told(m, t, said)
    ensures Told(m, t.(inotify := Emit(t.inotify, [Reset])), said)
  {
    EmitReports(t.inotify, [Reset]);
  }

  /** What an event itself is reported as. */
  ghost function EventReports(m: Monitor, ev: Event): seq<Output>
    requires Valid(m.inotify)
  {
    match TableGet(m.inotify, ev.wd)
    case None => []
    case Some(p) => Reports(EventPath(m.inotify, p, ev.name), ev.mask)
  }

  lemma EventTold(m: Monitor, ev: Event, w: World)
    requires Valid(m.inotify) && KernelEvent(ev)
    ensures Told(m, ProcessEvent(m, ev, w).0, EventReports(m, ev))
  {
    NothingTold(m);
    if TableGet(m.inotify, ev.wd).Some? {
      var p := TableGet(m.inotify, ev.wd).value;
      var path := EventPath(m.inotify, p, ev.name);
      assert NodeOk(m.inotify, p);
      CallbackTold(m, path, ev.mask);
      var t := Callback(m, path, ev.mask);
      if ChangesTree(ev.mask) {
        CallbackFrame(m, path, ev.mask);
        UpdateReportsNothing(t.inotify, p, ev.mask, path, w);
      }
    }
  }

  lemma UpdateReportsNothing(s: Inotify, p: Ptr, mask: set<Bit>, path: string, w: World)
    requires Valid(s) && NulFree(path) && p in s.nodes
    ensures Reported(s, UpdatedTree(s, p, mask, path, w).0, [])
  {
    if InCreate in mask || InMovedTo in mask { WalkTreeReportsNothing(s, path, Some(p), true, [], w); }
  }

  lemma {:induction false} UnregisterReportsNothing(m: Monitor)
    requires Valid(m.inotify)
    ensures Unregister(m).inotify.out == m.inotify.out && Unregister(m).notes == m.notes
    decreases |m.roots|
  {
    if m.roots != [] {
      var k := |m.roots| - 1;
      RemoveReportsNothing(m.inotify, m.roots[k].id);
      UnregisterReportsNothing(m.(inotify := Remove(m.inotify, m.roots[k].id), roots := m.roots[..k]));
    }
  }

  lemma {:induction false} RegisterReportsNothing(m: Monitor, newRoots: seq<string>, mounts: seq<string>,
          unwatchable: seq<string>, ws: nat -> World, i: nat)
    requires Valid(m.inotify) && i <= |newRoots| && AllNulFree(newRoots)
    ensures var r := Register(m, newRoots, mounts, unwatchable, ws, i);
      Reported(m.inotify, r.monitor.inotify, []) && r.monitor.notes == m.notes
    decreases |newRoots| - i
  {
    if i < |newRoots| {
      WatchReportsNothing(m.inotify, newRoots[i], ScanMounts(mounts, Unflatten(newRoots[i])).inner, ws(i));
      var r := RegisterRoot(m, newRoots[i], mounts, ws(i));
      if r.ok { RegisterReportsNothing(r.monitor, newRoots, mounts, unwatchable + r.unwatchable, ws, i + 1); }
    }
  }

  lemma UpdateRootsReportsNothing(m: Monitor, newRoots: seq<string>, mounts: Option<seq<string>>, ws: nat -> World)
    requires Valid(m.inotify) && AllNulFree(newRoots)
    ensures var t := UpdateRoots(m, newRoots, mounts, ws).0;
      Reported(m.inotify, t.inotify, []) && t.notes == m.notes
  {
    var t := Unregister(m);
    UnregisterReportsNothing(m);
    if newRoots == [] {
      EmitReports(t.inotify, [Unwatchable([])]);
    } else if newRoots == ["/"] {
      EmitReports(t.inotify, [Unwatchable(["/"])]);
    } else if mounts.Some? {
      RegisterReportsNothing(t, newRoots, mounts.value, [], ws, 0);
      var r := Register(t, newRoots, mounts.value, [], ws, 0);
      EmitReports(r.monitor.inotify, [Unwatchable(r.unwatchable)]);
    }
  }

  /** The reports of one turn: those of its event, then those about the roots it noted. */
  ghost function TurnReports(m: Monitor, step: Step): seq<Output>
    requires Inv(m) && StepOk(step)
  {
    var t := Turn(m, step).0;
    (if step.InotifyInput? then EventReports(m, step.event) else [])
    + if m.notes <= t.notes then NoteReports(t.notes[|m.notes|..], m.roots) else []
  }

  ghost function RunReports(m: Monitor, steps: seq<Step>): seq<Output>
    requires Inv(m) && forall step | step in steps :: StepOk(step)
    decreases |steps|
  {
    if steps == [] then []
    else
      assert steps[0] in steps;
      var (t, ok) := Turn(m, steps[0]);
      TurnReports(m, steps[0]) + if ok then RunReports(t, steps[1..]) else []
  }

  lemma TurnIsReported(m: Monitor, step: Step)
    requires Inv(m) && StepOk(step)
    ensures var t := Turn(m, step).0;
      m.notes <= t.notes && Reported(m.inotify, t.inotify, TurnReports(m, step))
  {
    match step
    case RootsCommand(newRoots, mounts, ws) =>
      UpdateRootsReportsNothing(m, newRoots, mounts, ws);
      assert m.notes[|m.notes|..] == [];
    case InotifyInput(event, w) => EventTold(m, event, w);
    case Timeout(seen, ws) =>
      NothingTold(m);
      RestorationTold(m, m, seen, ws, 0, []);
  }

  /** Over any run, the reports in the output are those of the events and, for every note about a root, its
      rendering: one DELETE line, or one CREATE and one CHANGE line, with the root's path. */
  lemma {:induction false} RunIsReported(m: Monitor, steps: seq<Step>)
    requires Inv(m) && forall step | step in steps :: StepOk(step)
    ensures Reported(m.inotify, Run(m, steps).inotify, RunReports(m, steps))
    decreases |steps|
  {
    if steps == [] {
      assert ReportsOf(m.inotify.out) + [] == ReportsOf(m.inotify.out);
    } else {
      FirstTurn(m, steps);
      TurnIsReported(m, steps[0]);
      var (t, ok) := Turn(m, steps[0]);
      var first, rest := TurnReports(m, steps[0]), if ok then RunReports(t, steps[1..]) else [];
      if ok {
        RunIsReported(t, steps[1..]);
      } else {
        assert ReportsOf(t.inotify.out) + [] == ReportsOf(t.inotify.out);
      }
      ReportedThen(m.inotify, t.inotify, Run(m, steps).inotify, first, rest);
    }
  }
}
