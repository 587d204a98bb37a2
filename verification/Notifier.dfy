/** The program itself: fsnotifier's static variables as fields, its functions as methods. */
module Notifier {
  import opened Options
  import opened Posix
  import opened Paths
  import opened Protocol
  import opened Watches
  import opened MainLoop
  import opened Pruning
  import opened Runs
  import opened Collections
  import opened WalkGrowth
  import Walk

  class Notifier {
    // inotify.c
    const capacity: nat
    const table: array<Option<Ptr>>
    const pathBuf: array<char>
    var nodes: map<Ptr, Node>
    var next: Ptr
    var limitReached: bool
    // main.c
    var roots: seq<Root>
    var stdout: string
    // ledgers
    ghost var issued: multiset<nat>
    ghost var released: multiset<nat>
    ghost var strays: set<nat>
    ghost var log: seq<Output>
    ghost var notes: seq<Note>

    ghost function Model(): Inotify
      reads this, table
    {
      Inotify(capacity, nodes, table[..], next, limitReached, log, issued, released, strays)
    }

    ghost function State(): Monitor
      reads this, table
    {
      Monitor(Model(), roots, notes)
    }

    ghost predicate Ok()
      reads this
    {
      && 0 < capacity == table.Length
      && pathBuf.Length == 2 * PATH_MAX
      && stdout == RenderAll(log)
    }

    /** The forest is valid, and `m` is the state. */
    ghost predicate Settled(m: Monitor)
      reads this, table
    {
      Ok() && m == State() && Valid(m.inotify)
    }

    constructor (capacity: nat)
      requires 0 < capacity
      ensures Ok() && fresh(table) && fresh(pathBuf)
      ensures State() == Start(capacity)
    {
      this.capacity := capacity;
      table := new Option<Ptr>[capacity](_ => None);
      pathBuf := new char[2 * PATH_MAX](_ => NUL);
      nodes, next, limitReached, roots, stdout := map[], 0, false, [], "";
      issued, released, strays, log, notes := multiset{}, multiset{}, {}, [], [];
      new;
      assert table[..] == seq(capacity, _ => None);
    }

    function Lookup(wd: int): (r: Option<Ptr>)
      requires Ok()
      reads this, table
      ensures r == TableGet(Model(), wd)
    {
      var k := Slot(wd, capacity);
      if k < 0 then None else table[k]
    }

    /** `table_put` */
    method TablePut(key: int, value: Option<Ptr>) returns (ok: bool)
      requires Ok()
      modifies table
      ensures (table[..], ok) == Collections.TablePut(old(table[..]), key, value)
    {
      var k := Slot(key, capacity);
      if k < 0 || (value != None && table[k] != None) { return false; }
      table[k] := value;
      ok := true;
    }

    /** Frees the node in the slot of `wd` and its subtree, in a forest that is `base` but for the
        nodes `dead`, freed already. */
    method RmWatch(wd: int, updateParent: bool, ghost base: Inotify, ghost dead: set<Ptr>)
      requires Ok() && Removable(base, Model(), wd, dead)
      requires updateParent ==> dead == {}
      modifies this`nodes, this`released, table
      ensures Removed(base, old(Model()), Model(), wd, updateParent, dead)
      decreases if Lookup(wd).Some? then 1 + base.next - Lookup(wd).value else 0, 2
    {
      var found := Lookup(wd);
      if found == None { return; }
      var p := found.value;
      FoundAlive(base, Model(), wd, dead);
      RemovingStart(base, Model(), wd, dead);
      ghost var s0 := Model();
      released := released + multiset{nodes[p].wd};
      RmKids(p, base, dead, s0.released);
      ghost var s := Model();
      RemovingEnd(base, s0, s, wd, updateParent, p, dead);
      if updateParent && nodes[p].parent.Some? { ParentBlankable(base, s, p, s0.released); }
      FreeNode(p, wd, updateParent);
    }

    /** The end of `rm_watch`: the parent's slot, the node and its table entry. */
    method FreeNode(p: Ptr, wd: int, updateParent: bool)
      requires Ok() && p in nodes && 0 <= Slot(wd, capacity)
      requires updateParent && nodes[p].parent.Some? ==>
        nodes[p].parent.value in nodes && DistinctKids(nodes[nodes[p].parent.value].kids)
      modifies this`nodes, table
      ensures Model() == Freed(old(Model()), p, updateParent, Slot(wd, capacity))
    {
      if updateParent && nodes[p].parent.Some? {
        BlankKid(nodes[p].parent.value, p);
      }
      nodes := nodes - {p};
      var _ := TablePut(wd, None);
    }

    /** The loop of `rm_watch` over the kids. */
    method RmKids(p: Ptr, ghost base: Inotify, ghost dead: set<Ptr>, ghost was: multiset<nat>)
      requires Ok() && Valid(base) && p in base.nodes && p < base.next && Subtree(base.nodes, p) !! dead
      requires Removing(base, Model(), p, 0, dead, was) && p in nodes && nodes[p] == base.nodes[p]
      modifies this`nodes, this`released, table
      ensures Removing(base, Model(), p, |base.nodes[p].kids|, dead, was)
      decreases 1 + base.next - p, 1
    {
      var i := 0;
      ghost var kids, s := nodes[p].kids, Model();
      while i < |nodes[p].kids|
        invariant p in nodes && nodes[p] == base.nodes[p] && i <= |nodes[p].kids|
        invariant Removing(base, s, p, i, dead, was) && s == Model()
        decreases |kids| - i
      {
        RmKid(p, i, base, dead, was);
        s := Model();
        i := i + 1;
      }
    }

    method RmKid(p: Ptr, i: nat, ghost base: Inotify, ghost dead: set<Ptr>, ghost was: multiset<nat>)
      requires Ok() && Valid(base) && p in base.nodes && p < base.next && Subtree(base.nodes, p) !! dead
      requires i < |base.nodes[p].kids| && Removing(base, Model(), p, i, dead, was) && p in nodes
      modifies this`nodes, this`released, table
      ensures Removing(base, Model(), p, i + 1, dead, was) && p in nodes && nodes[p] == base.nodes[p]
      decreases 1 + base.next - p, 0
    {
      ghost var s := Model();
      var kid := nodes[p].kids[i];
      if kid.Some? {
        KidRemovable(base, s, p, i, dead, was);
        RmWatch(nodes[kid.value].wd, false, base, dead + KidTrees(base.nodes, base.nodes[p].kids, i));
      }
      RemovingStep(base, s, Model(), p, i, dead, was);
    }

    /** Blanks the slot of `p` among the kids of `q`. */
    method BlankKid(q: Ptr, p: Ptr)
      requires q in nodes
      requires DistinctKids(nodes[q].kids)
      modifies this`nodes
      ensures nodes == old(nodes)[q := old(nodes[q]).(kids := Blank(old(nodes[q].kids), p))]
    {
      var i := 0;
      while i < |nodes[q].kids|
        invariant i <= |nodes[q].kids| && nodes == old(nodes)
        invariant forall j | 0 <= j < i :: nodes[q].kids[j] != Some(p)
      {
        if nodes[q].kids[i] == Some(p) {
          nodes := nodes[q := nodes[q].(kids := nodes[q].kids[i := None])];
          assert nodes[q].kids == Blank(old(nodes[q].kids), p);
          return;
        }
        i := i + 1;
      }
      assert nodes[q].kids == Blank(old(nodes[q].kids), p);
    }

    /** `unwatch` */
    method Unwatch(id: int)
      requires Ok() && Valid(Model())
      modifies this`nodes, this`released, table
      ensures Model() == Remove(old(Model()), id)
    {
      ghost var s := Model();
      NothingPruned(s, id);
      RmWatch(id, true, s, {});
      RemovedIsRemove(s, Model(), id);
    }

    method Message(o: Output)
      requires Ok()
      modifies this`stdout, this`log
      ensures Ok() && log == old(log) + [o]
    {
      stdout := stdout + Render(o);
      log := log + [o];
    }

    // ---------- add_watch ----------

    /** `path_buf` holds the C string `path`. */
    ghost predicate Holding(path: string)
      reads this, pathBuf
    {
      && |path| < pathBuf.Length == 2 * PATH_MAX
      && NulFree(path) && pathBuf[..|path|] == path && pathBuf[|path|] == NUL
    }

    method AddWatch(pathLen: nat, parent: Option<Ptr>, w: World, ghost path: string) returns (wd: int)
      requires Ok() && Valid(Model()) && Live(Model(), parent)
      requires pathLen == |path| && Holding(path)
      modifies this`nodes, this`next, this`limitReached, this`issued, this`strays, this`stdout, this`log, table
      ensures Ok() && (Model(), wd) == Walk.AddWatch(old(Model()), path, parent, w)
    {
      ghost var s := Model();
      CStringIs(pathBuf[..], path);
      var name := CString(pathBuf[..]);
      match w.addWatch(name) {
        case Refused(e) =>
          wd := Refuse(e);
          return;
        case Descriptor(d) =>
          wd := d;
      }
      var known := Lookup(wd);
      if known.Some? {
        var node := nodes[known.value];
        if node.wd != wd {
          issued, strays := Walk.Issue(s, wd), strays + {wd};
          return ERR_ABORT;
        } else if node.path != name {
          var normalized1, normalized2 := w.realpath(node.path), w.realpath(name);
          if normalized1 == None || normalized2 == None || normalized1 != normalized2 { return ERR_ABORT; }
          else { return ERR_IGNORE; }
        }
        return wd;
      }
      var ok := NewNode(wd, pathLen, parent, path);
      if !ok { return ERR_ABORT; }
    }

    method Refuse(e: Errno) returns (code: int)
      requires Ok() && Valid(Model())
      modifies this`limitReached, this`stdout, this`log
      ensures Ok() && code == Walk.RefusedCode(e)
      ensures Model() == if e == ENOSPC then Walk.ReachLimit(old(Model())) else old(Model())
    {
      if e == EACCES || e == ENOENT {
        return ERR_IGNORE;
      } else if e == ENOSPC {
        if !limitReached {
          limitReached := true;
          Message(LimitMessage);
        }
        return ERR_CONTINUE;
      } else {
        return ERR_ABORT;
      }
    }

    /** The put into the table cannot fail: its slot was just seen empty. */
    method NewNode(wd: nat, pathLen: nat, parent: Option<Ptr>, ghost path: string) returns (ok: bool)
      requires Ok() && Valid(Model()) && Live(Model(), parent) && Lookup(wd) == None
      requires pathLen == |path| && Holding(path)
      modifies this`nodes, this`next, this`issued, this`strays, table
      ensures ok && Ok() && Model() == Walk.Insert(old(Model()), wd, path, parent)
    {
      ghost var s := Model();
      var node := next;
      next := next + 1;
      if parent.Some? {
        var q := parent.value;
        nodes := nodes[q := nodes[q].(kids := nodes[q].kids + [Some(node)])];
      }
      nodes := nodes[node := Node(wd, pathBuf[..pathLen], pathLen, parent, [])];
      ok := TablePut(wd, Some(node));
      issued, strays := Walk.Issue(s, wd), strays - {wd};
    }

    // ---------- walk_tree ----------

    /** Appends "/", `name` and a NUL at `pathLen`, as `memcpy` does. */
    method CopyName(pathLen: nat, name: string)
      requires pathBuf.Length == 2 * PATH_MAX && pathLen + 1 + |name| < pathBuf.Length
      requires NulFree(pathBuf[..pathLen]) && NulFree(name) && pathBuf[pathLen] == '/'
      modifies pathBuf
      ensures pathBuf[..pathLen + 1] == old(pathBuf[..pathLen + 1])
      ensures Holding(Child(old(pathBuf[..pathLen]), name))
    {
      forall i | 0 <= i < |name| { pathBuf[pathLen + 1 + i] := name[i]; }
      pathBuf[pathLen + 1 + |name|] := NUL;
      assert pathBuf[..pathLen + 1 + |name|] == Child(old(pathBuf[..pathLen]), name);
    }

    /** The loop of `walk_tree` over the mounts. */
    method CrossesMount(name: string, mounts: seq<string>) returns (crossed: bool)
      ensures crossed <==> Walk.Crosses(name, mounts)
    {
      for j := 0 to |mounts|
        invariant forall k | 0 <= k < j :: !(mounts[k] <= name)
      {
        if mounts[j] <= name { return true; }
      }
      crossed := false;
    }

    /** The shared buffer keeps the caller's prefix; the forest ends up as if the path were passed by value. */
    method WalkTree(pathLen: nat, parent: Option<Ptr>, recursive: bool, mounts: seq<string>, w: World,
            ghost path: string)
      returns (id: int)
      requires Ok() && Valid(Model()) && Live(Model(), parent)
      requires pathLen == |path| && Holding(path)
      modifies this`nodes, this`next, this`limitReached, this`issued, this`strays, this`released, this`stdout
      modifies this`log, table, pathBuf
      ensures Ok() && (Model(), id) == Walk.WalkTree(old(Model()), path, parent, recursive, mounts, w)
      ensures pathBuf[..pathLen] == path
      decreases if |path| < PATH_MAX then PATH_MAX - |path| else 0, 1, 0
    {
      CStringIs(pathBuf[..], path);
      var name := CString(pathBuf[..]);
      var crossed := CrossesMount(name, mounts);
      if crossed { return ERR_IGNORE; }
      if recursive {
        match w.opendir(name) {
          case NotOpened(e) => return Walk.OpenCode(e);
          case Opened(_) =>
        }
      }
      id := AddWatch(pathLen, parent, w, path);
      if !recursive || id < 0 { return; }
      pathBuf[pathLen] := '/';
      id := ReadDir(pathLen, id, w.opendir(name).entries, mounts, w, path);
      assert pathBuf[..pathLen] == pathBuf[..pathLen + 1][..pathLen];
    }

    /** The loop of `walk_tree` over the directory `path`. */
    method ReadDir(pathLen: nat, id0: int, entries: seq<Entry>, mounts: seq<string>, w: World, ghost path: string)
      returns (id: int)
      requires Ok() && Valid(Model())
      requires pathLen == |path| < PATH_MAX && NulFree(path) && pathBuf[..pathLen + 1] == path + "/"
      requires forall e | e in entries :: FileName(e.name)
      modifies this`nodes, this`next, this`limitReached, this`issued, this`strays, this`released, this`stdout
      modifies this`log, table, pathBuf
      ensures Ok() && (Model(), id) == Walk.WalkEntries(old(Model()), path, id0, entries, mounts, w)
      ensures pathBuf[..pathLen + 1] == path + "/"
      decreases PATH_MAX - |path|, 0, 2
    {
      id := id0;
      ghost var s := Model();
      ghost var goal := Walk.WalkEntries(s, path, id, entries, mounts, w);
      var rest, failed := entries, false;
      while rest != [] && !failed
        invariant (forall e | e in rest :: FileName(e.name)) && Ok() && s == Model() && Valid(s)
        invariant pathBuf[..pathLen + 1] == path + "/"
        invariant if failed then (s, id) == goal else Walk.WalkEntries(s, path, id, rest, mounts, w) == goal
        decreases |rest|
      {
        id, failed := ReadNext(pathLen, id, rest, mounts, w, path);
        s := Model();
        rest := rest[1..];
      }
    }

    /** One turn of that loop; `failed` says that it ends with `break`. */
    method ReadNext(pathLen: nat, id0: int, rest: seq<Entry>, mounts: seq<string>, w: World, ghost path: string)
      returns (id: int, failed: bool)
      requires Ok() && Valid(Model()) && rest != []
      requires pathLen == |path| < PATH_MAX && NulFree(path) && pathBuf[..pathLen + 1] == path + "/"
      requires forall e | e in rest :: FileName(e.name)
      modifies this`nodes, this`next, this`limitReached, this`issued, this`strays, this`released, this`stdout
      modifies this`log, table, pathBuf
      ensures Ok() && Valid(Model()) && pathBuf[..pathLen + 1] == path + "/"
      ensures Walk.WalkEntries(old(Model()), path, id0, rest, mounts, w) ==
        if failed then (Model(), id) else Walk.WalkEntries(Model(), path, id, rest[1..], mounts, w)
      decreases PATH_MAX - |path|, 0, 1
    {
      id, failed := id0, false;
      assert rest[0] in rest;
      var followed, sub := ReadEntry(pathLen, id, rest[0], mounts, w, path);
      if followed && Walk.Hard(sub) {
        Unwatch(id);
        id, failed := sub, true;
      }
    }

    /** The entry itself: whether it is followed, and the result of the walk below it. */
    method ReadEntry(pathLen: nat, id: int, entry: Entry, mounts: seq<string>, w: World, ghost path: string)
      returns (followed: bool, sub: int)
      requires Ok() && Valid(Model()) && FileName(entry.name)
      requires pathLen == |path| < PATH_MAX && NulFree(path) && pathBuf[..pathLen + 1] == path + "/"
      modifies this`nodes, this`next, this`limitReached, this`issued, this`strays, this`released, this`stdout
      modifies this`log, table, pathBuf
      ensures Ok() && pathBuf[..pathLen + 1] == path + "/"
      ensures followed <==> Walk.Followed(path, entry, w)
      ensures followed ==>
        (Model(), sub) == Walk.WalkTree(old(Model()), Child(path, entry.name), old(Lookup(id)), true, mounts, w)
      ensures !followed ==> Model() == old(Model())
      decreases PATH_MAX - |path|, 0, 0
    {
      followed, sub := false, 0;
      if entry.name == "." || entry.name == ".." { return; }
      if entry.kind != DtUnknown && entry.kind != DtDir { return; }
      assert pathBuf[..pathLen] == path && pathBuf[pathLen] == '/';
      CopyName(pathLen, entry.name);
      ghost var child := Child(path, entry.name);
      if entry.kind == DtUnknown {
        CStringIs(pathBuf[..], child);
        if w.stat(CString(pathBuf[..])) != Found(Directory) { return; }
      }
      followed := true;
      sub := WalkTree(pathLen + 1 + |entry.name|, Lookup(id), true, mounts, w, child);
      assert pathBuf[..pathLen + 1] == pathBuf[..|child|][..pathLen + 1];
    }

    /** `watch` */
    method Watch(root: string, mounts: seq<string>, w: World) returns (id: int)
      requires Ok() && Valid(Model()) && RootOk(root)
      modifies this`nodes, this`next, this`limitReached, this`issued, this`strays, this`released, this`stdout
      modifies this`log, table, pathBuf
      ensures Ok() && (Model(), id) == Walk.Watch(old(Model()), root, mounts, w)
    {
      var recursive, name, pathLen := SplitRoot(root);
      match w.stat(name) {
        case NotFound(e) => return Walk.StatCode(e);
        case Found(kind) =>
          if kind == RegularFile { recursive := false; }
          else if kind != Directory { return ERR_IGNORE; }
      }
      id := WalkFrom(name, pathLen, recursive, mounts, w);
    }

    /** A leading "|" makes the root flat; a trailing slash is not part of its path. */
    method SplitRoot(root: string) returns (recursive: bool, name: string, pathLen: nat)
      requires RootOk(root)
      ensures name == Walk.Unflatten(root) && NulFree(name) && recursive == (name == root)
      ensures pathLen <= |name| && name[..pathLen] == TrimSlash(name)
    {
      recursive, name := true, root;
      if root[0] == '|' { recursive, name := false, root[1..]; }
      pathLen := |name|;
      if name[pathLen - 1] == '/' { pathLen := pathLen - 1; }
    }

    /** Copies the first `pathLen` characters of `name` into `path_buf` and walks from there. */
    method WalkFrom(name: string, pathLen: nat, recursive: bool, mounts: seq<string>, w: World) returns (id: int)
      requires Ok() && Valid(Model()) && NulFree(name) && pathLen <= |name| < PATH_MAX
      modifies this`nodes, this`next, this`limitReached, this`issued, this`strays, this`released, this`stdout
      modifies this`log, table, pathBuf
      ensures Ok() && (Model(), id) == Walk.WalkTree(old(Model()), name[..pathLen], None, recursive, mounts, w)
    {
      forall i | 0 <= i < pathLen { pathBuf[i] := name[i]; }
      pathBuf[pathLen] := NUL;
      assert pathBuf[..pathLen] == name[..pathLen];
      id := WalkTree(pathLen, None, recursive, mounts, w, name[..pathLen]);
    }

    // ---------- report_event ----------

    method ReportEvent(tag: Tag, path: array<char>, ghost name: string)
      requires Ok() && |name| < path.Length && NulFree(name) && path[..|name|] == name && path[|name|] == NUL
      modifies this`stdout, this`log
      ensures Ok() && log == old(log) + [Report(tag, name)]
    {
      var copy, p := EscapeNewlines(path, name);
      stdout := stdout + (TagText(tag) + "\n" + copy[..p] + "\n");
      log := log + [Report(tag, name)];
    }

    /** The loop of `report_event`: the caller's buffer is copied at the first newline, never written. */
    method EscapeNewlines(path: array<char>, ghost name: string) returns (copy: array<char>, p: nat)
      requires |name| < path.Length && NulFree(name) && path[..|name|] == name && path[|name|] == NUL
      ensures p == |name| < copy.Length && copy[..p] == Escape(name)
      ensures '\n' !in name ==> copy == path
    {
      copy, p := path, 0;
      assert forall k | 0 <= k < |name| :: path[k] == path[..|name|][k];
      while copy[p] != NUL
        invariant p <= |name| && copy.Length == path.Length && (copy == path || fresh(copy))
        invariant path[|name|] == NUL && forall k | 0 <= k < |name| :: path[k] == name[k]
        invariant copy == path <==> '\n' !in name[..p]
        invariant forall k | 0 <= k < p :: copy[k] == Escape(name)[k]
        invariant forall k | p <= k <= |name| :: copy[k] == path[k]
        decreases |name| - p
      {
        if copy[p] == '\n' {
          if copy == path {
            copy := new char[path.Length](i requires 0 <= i < path.Length reads path => path[i]);
          }
          copy[p] := NUL;
        }
        p := p + 1;
      }
      assert name[..p] == name;
    }

    // ---------- events ----------

    /** `inotify_callback` */
    method InotifyCallback(mask: set<Bit>, ghost path: string)
      requires Ok() && Valid(Model()) && Holding(path)
      modifies this`nodes, this`released, this`roots, this`stdout, this`log, this`notes, table
      ensures Ok() && State() == Callback(old(State()), path, mask)
    {
      ghost var s := Model();
      ReportChange(mask, path);
      assert Model() == Emit(s, Reports(path, mask));
      if InDeleteSelf in mask || InMoveSelf in mask {
        CheckRootRemoval(pathBuf, path);
      } else if InUnmount in mask {
        Message(Reset);
      }
    }

    method ReportChange(mask: set<Bit>, ghost path: string)
      requires Ok() && Holding(path)
      modifies this`stdout, this`log
      ensures Ok() && log == old(log) + Reports(path, mask)
    {
      if InCreate in mask || InMovedTo in mask {
        ReportEvent(CREATE, pathBuf, path);
        ReportEvent(CHANGE, pathBuf, path);
      } else if InModify in mask {
        ReportEvent(CHANGE, pathBuf, path);
      } else if InAttrib in mask {
        ReportEvent(STATS, pathBuf, path);
      } else if InDelete in mask || InMovedFrom in mask {
        ReportEvent(DELETE, pathBuf, path);
      }
    }

    /** `check_root_removal` */
    method CheckRootRemoval(path: array<char>, ghost name: string)
      requires Ok() && Valid(Model())
      requires |name| < path.Length && NulFree(name) && path[..|name|] == name && path[|name|] == NUL
      modifies this`nodes, this`released, this`roots, this`stdout, this`log, this`notes, table
      ensures Ok() && State() == MainLoop.CheckRootRemoval(old(State()), name, 0)
    {
      ghost var goal := MainLoop.CheckRootRemoval(State(), name, 0);
      ghost var m := State();
      CStringIs(path[..], name);
      var i := 0;
      while i < |roots|
        invariant Ok() && m == State() && Valid(m.inotify) && i <= |roots|
        invariant MainLoop.CheckRootRemoval(m, name, i) == goal
      {
        if 0 <= roots[i].id && CString(path[..]) == Walk.Unflatten(roots[i].path) {
          RemoveRoot(i, path, name);
        }
        m := State();
        i := i + 1;
      }
    }

    method RemoveRoot(i: nat, path: array<char>, ghost name: string)
      requires Ok() && Valid(Model()) && i < |roots|
      requires |name| < path.Length && NulFree(name) && path[..|name|] == name && path[|name|] == NUL
      modifies this`nodes, this`released, this`roots, this`stdout, this`log, this`notes, table
      ensures Ok() && State() == RootRemoved(old(State()), i, name)
    {
      Unwatch(roots[i].id);
      roots := roots[i := roots[i].(id := -1)];
      notes := notes + [Deleted(i)];
      ReportEvent(DELETE, path, name);
    }

    /** `process_inotify_event`; false ends the program. */
    method ProcessEvent(ev: Event, w: World) returns (ok: bool)
      requires Ok() && Valid(Model()) && Linked(Model()) && KernelEvent(ev)
      modifies this`nodes, this`next, this`limitReached, this`issued, this`strays, this`released, this`roots
      modifies this`stdout, this`log, this`notes, table, pathBuf
      ensures Ok() && (State(), ok) == MainLoop.ProcessEvent(old(State()), ev, w)
    {
      var found := Lookup(ev.wd);
      if found == None { return true; }
      var p := found.value;
      ghost var m := State();
      ghost var path := EventPath(m.inotify, p, ev.name);
      var pathLen := ComposePath(p, ev.name);
      InotifyCallback(ev.mask, path);
      if ChangesTree(ev.mask) { EventNodeSurvives(m, ev, p); }
      ok := true;
      if ev.isDir { ok := UpdateTree(p, pathLen, ev.mask, w, path); }
    }

    /** The part of `process_inotify_event` after the callback, for directories. */
    method UpdateTree(p: Ptr, pathLen: nat, mask: set<Bit>, w: World, ghost path: string) returns (ok: bool)
      requires Ok() && Valid(Model()) && pathLen == |path| && Holding(path)
      requires forall b, c | b in mask && c in mask :: b == c
      requires ChangesTree(mask) ==> p in nodes
      modifies this`nodes, this`next, this`limitReached, this`issued, this`strays, this`released, this`stdout
      modifies this`log, table, pathBuf
      ensures Ok() && (Model(), ok) == UpdatedTree(old(Model()), p, mask, path, w)
    {
      if InCreate in mask || InMovedTo in mask {
        var result := WalkTree(pathLen, Some(p), true, [], w, path);
        if result < 0 && result != ERR_IGNORE && result != ERR_CONTINUE { return false; }
      }
      if InDelete in mask || InMovedFrom in mask {
        RemoveKid(p, path);
      }
      return true;
    }

    /** Puts the path of the event's object into `path_buf`. */
    method ComposePath(p: Ptr, name: string) returns (pathLen: nat)
      requires Ok() && Valid(Model()) && p in nodes && LinkedAt(nodes, p) && (name == "" || EntryName(name))
      modifies pathBuf
      ensures Holding(EventPath(Model(), p, name)) && pathLen == |EventPath(Model(), p, name)|
    {
      assert NodeOk(Model(), p);
      pathLen := nodes[p].pathLen;
      forall i | 0 <= i < pathLen { pathBuf[i] := nodes[p].path[i]; }
      pathBuf[pathLen] := NUL;
      assert pathBuf[..pathLen] == nodes[p].path;
      if name != "" {
        pathBuf[pathLen] := '/';
        assert pathBuf[..pathLen] == nodes[p].path;
        CopyName(pathLen, name);
        pathLen := pathLen + |name| + 1;
      }
    }

    /** The loop of `process_inotify_event` over the kids, for a directory that is gone. */
    method RemoveKid(p: Ptr, ghost path: string)
      requires Ok() && Valid(Model()) && p in nodes && Holding(path)
      modifies this`nodes, this`released, table
      ensures Model() == DropKid(old(Model()), p, path)
    {
      ghost var s := Model();
      KidsLive(s, p);
      CStringIs(pathBuf[..], path);
      var name := CString(pathBuf[..]);
      var i := 0;
      while i < |nodes[p].kids|
        invariant i <= |nodes[p].kids| && Model() == s && nodes == old(nodes)
        invariant FirstKid(s, s.nodes[p].kids, path, 0) == FirstKid(s, s.nodes[p].kids, path, i)
      {
        var kid := nodes[p].kids[i];
        if kid.Some? {
          assert NodeOk(s, kid.value);
          if nodes[kid.value].path[..nodes[kid.value].pathLen] <= name {
            RemoveKidAt(p, i);
            return;
          }
        }
        i := i + 1;
      }
    }

    method RemoveKidAt(p: Ptr, i: nat)
      requires Ok() && Valid(Model()) && p in nodes && i < |nodes[p].kids| && nodes[p].kids[i].Some?
      requires nodes[p].kids[i].value in nodes
      modifies this`nodes, this`released, table
      ensures Model() == Drop(old(Model()), old(nodes[p].kids[i]).value)
    {
      ghost var s := Model();
      var kid := nodes[p].kids[i].value;
      assert NodeOk(s, kid);
      NothingPruned(s, nodes[kid].wd);
      RmWatch(nodes[kid].wd, false, s, {});
      BlankInParent(s, Model(), p, i);
      nodes := nodes[p := nodes[p].(kids := nodes[p].kids[i := None])];
    }

    // ---------- the root list ----------

    method UnregisterRoots()
      requires Ok() && Valid(Model())
      modifies this`nodes, this`released, this`roots, table
      ensures State() == Unregister(old(State()))
    {
      ghost var m := State();
      while roots != []
        invariant Ok() && m == State() && Valid(m.inotify)
        invariant Unregister(m) == Unregister(old(State()))
        decreases |roots|
      {
        var root := roots[|roots| - 1];
        roots := roots[..|roots| - 1];
        Unwatch(root.id);
        m := State();
      }
    }

    /** `check_missing_roots` */
    method CheckMissingRoots(seen: nat -> bool, ws: nat -> World)
      requires Ok() && Valid(Model()) && RootsOk(roots)
      modifies this`nodes, this`next, this`limitReached, this`issued, this`strays, this`released, this`roots
      modifies this`stdout, this`log, this`notes, table, pathBuf
      ensures Ok() && State() == MainLoop.CheckMissingRoots(old(State()), seen, ws, 0)
    {
      ghost var m := State();
      ghost var goal := MainLoop.CheckMissingRoots(m, seen, ws, 0);
      var i := 0;
      while i < |roots|
        invariant Ok() && m == State() && Valid(m.inotify) && RootsOk(m.roots) && i <= |m.roots|
        invariant MainLoop.CheckMissingRoots(m, seen, ws, i) == goal
        decreases |roots| - i
      {
        CheckMissingRoot(i, seen(i), ws(i));
        m := State();
        i := i + 1;
      }
    }

    method CheckMissingRoot(i: nat, seen: bool, w: World)
      requires Ok() && Valid(Model()) && RootsOk(roots) && i < |roots|
      modifies this`nodes, this`next, this`limitReached, this`issued, this`strays, this`released, this`roots
      modifies this`stdout, this`log, this`notes, table, pathBuf
      ensures Ok() && State() == if old(roots)[i].id < 0 && seen then RootRestored(old(State()), i, w) else old(State())
    {
      if roots[i].id < 0 {
        if seen {
          var id := Watch(roots[i].path, [], w);
          ReportRestored(i, id);
        }
      }
    }

    method ReportRestored(i: nat, id: int)
      requires Ok() && RootsOk(roots) && i < |roots|
      modifies this`roots, this`stdout, this`log, this`notes
      ensures var path := Walk.Unflatten(old(roots)[i].path);
        && Ok()
        && log == old(log) + [Report(CREATE, path), Report(CHANGE, path)]
        && roots == old(roots)[i := old(roots)[i].(id := id)]
        && notes == old(notes) + [Created(i, 0 <= id)]
    {
      var name := Walk.Unflatten(roots[i].path);
      roots := roots[i := roots[i].(id := id)];
      notes := notes + [Created(i, 0 <= id)];
      ReportCreated(name);
    }

    method ReportCreated(name: string)
      requires Ok() && NulFree(name)
      modifies this`stdout, this`log
      ensures Ok() && log == old(log) + [Report(CREATE, name), Report(CHANGE, name)]
    {
      var path := new char[|name| + 1](k requires 0 <= k <= |name| => if k < |name| then name[k] else NUL);
      assert path[..|name|] == name;
      ReportEvent(CREATE, path, name);
      ReportEvent(CHANGE, path, name);
    }

    /** `register_roots` */
    method RegisterRoots(newRoots: seq<string>, mounts: seq<string>, ws: nat -> World)
      returns (unwatchable: seq<string>, ok: bool)
      requires Ok() && Valid(Model())
      requires AllNulFree(newRoots)
      modifies this`nodes, this`next, this`limitReached, this`issued, this`strays, this`released, this`roots
      modifies this`stdout, this`log, table, pathBuf
      ensures Ok() && Registered(State(), unwatchable, ok) == Register(old(State()), newRoots, mounts, [], ws, 0)
    {
      ghost var m := State();
      unwatchable, ok := [], true;
      var i := 0;
      ghost var now := m;
      while i < |newRoots| && ok
        invariant i <= |newRoots| && Settled(now) && Toward(m, now, newRoots, mounts, unwatchable, ws, i, ok)
        decreases |newRoots| - i
      {
        unwatchable, ok := RegisterNext(m, newRoots, mounts, unwatchable, ws, i);
        now := State();
        i := i + 1;
      }
    }

    /** Going on from `now` at root `i` completes the registration that started in `m`. */
    static ghost predicate Toward(m: Monitor, now: Monitor, newRoots: seq<string>, mounts: seq<string>,
            unwatchable: seq<string>, ws: nat -> World, i: nat, ok: bool)
      requires Valid(m.inotify) && Valid(now.inotify) && AllNulFree(newRoots) && i <= |newRoots|
    {
      Register(m, newRoots, mounts, [], ws, 0) ==
        if ok then Register(now, newRoots, mounts, unwatchable, ws, i) else Registered(now, unwatchable, false)
    }

    /** One turn of that loop. */
    method RegisterNext(ghost m: Monitor, newRoots: seq<string>, mounts: seq<string>, before: seq<string>,
            ws: nat -> World, i: nat)
      returns (unwatchable: seq<string>, ok: bool)
      requires Ok() && Valid(Model()) && Valid(m.inotify) && AllNulFree(newRoots) && i < |newRoots|
      requires Toward(m, State(), newRoots, mounts, before, ws, i, true)
      modifies this`nodes, this`next, this`limitReached, this`issued, this`strays, this`released, this`roots
      modifies this`stdout, this`log, table, pathBuf
      ensures Ok() && Valid(Model())
      ensures Toward(m, State(), newRoots, mounts, unwatchable, ws, i + 1, ok)
    {
      var found;
      found, ok := RegisterOne(newRoots[i], mounts, ws(i));
      unwatchable := before + found;
    }

    method RegisterOne(root: string, mounts: seq<string>, w: World) returns (found: seq<string>, ok: bool)
      requires Ok() && Valid(Model()) && NulFree(root)
      modifies this`nodes, this`next, this`limitReached, this`issued, this`strays, this`released, this`roots
      modifies this`stdout, this`log, table, pathBuf
      ensures Ok() && Registered(State(), found, ok) == RegisterRoot(old(State()), root, mounts, w)
    {
      var unflattened := Walk.Unflatten(root);
      if unflattened == "" || unflattened[0] != '/' { return [], true; }
      var skip, inner;
      skip, inner, found := CheckMounts(mounts, unflattened);
      if skip { return found, true; }
      var id := Watch(root, inner, w);
      if 0 <= id || id == ERR_MISSING {
        roots := roots + [Root(root, id)];
      } else if id == ERR_ABORT {
        return found, false;
      } else if id != ERR_IGNORE {
        found := found + [unflattened];
      }
      ok := true;
    }

    method CheckMounts(mounts: seq<string>, root: string) returns (skip: bool, inner: seq<string>, found: seq<string>)
      ensures Scan(skip, inner, found) == ScanMounts(mounts, root)
    {
      skip, inner, found := false, [], [];
      for j := 0 to |mounts|
        invariant !skip
        invariant var rest := ScanMounts(mounts[j..], root);
          ScanMounts(mounts, root) == Scan(rest.skip, inner + rest.inner, found + rest.unwatchable)
      {
        assert mounts[j..][1..] == mounts[j + 1..];
        if IsParentPath(mounts[j], root) {
          skip, found := true, found + [root];
          return;
        } else if IsParentPath(root, mounts[j]) {
          inner, found := inner + [mounts[j]], found + [mounts[j]];
        }
      }
    }

    /** `update_roots`; false ends the program. */
    method UpdateRoots(newRoots: seq<string>, mounts: Option<seq<string>>, ws: nat -> World) returns (ok: bool)
      requires Ok() && Valid(Model())
      requires AllNulFree(newRoots)
      modifies this`nodes, this`next, this`limitReached, this`issued, this`strays, this`released, this`roots
      modifies this`stdout, this`log, table, pathBuf
      ensures Ok() && (State(), ok) == MainLoop.UpdateRoots(old(State()), newRoots, mounts, ws)
    {
      UnregisterRoots();
      if |newRoots| == 0 {
        Announce([]);
        return true;
      }
      if |newRoots| == 1 && newRoots[0] == "/" {
        Announce(["/"]);
        return true;
      }
      if mounts == None { return false; }
      ok := RegisterAndAnnounce(newRoots, mounts.value, ws);
    }

    method RegisterAndAnnounce(newRoots: seq<string>, mounts: seq<string>, ws: nat -> World) returns (ok: bool)
      requires Ok() && Valid(Model())
      requires AllNulFree(newRoots)
      modifies this`nodes, this`next, this`limitReached, this`issued, this`strays, this`released, this`roots
      modifies this`stdout, this`log, table, pathBuf
      ensures Ok()
      ensures var r := Register(old(State()), newRoots, mounts, [], ws, 0);
        && ok == r.ok
        && State() ==
             if ok then r.monitor.(inotify := Emit(r.monitor.inotify, [Unwatchable(r.unwatchable)])) else r.monitor
    {
      var unwatchable;
      unwatchable, ok := RegisterRoots(newRoots, mounts, ws);
      if ok { Announce(unwatchable); }
    }

    method Announce(lines: seq<string>)
      requires Ok() && Valid(Model())
      modifies this`stdout, this`log
      ensures Ok() && Model() == Emit(old(Model()), [Unwatchable(lines)])
    {
      Message(Unwatchable(lines));
    }

    /** The main loop over the inputs `steps`, and the clean-up when it ends. */
    method Serve(steps: seq<Step>)
      requires Ok() && Inv(State())
      requires forall step | step in steps :: StepOk(step)
      modifies this, table, pathBuf
      ensures Ok() && State() == Unregister(Run(old(State()), steps))
      ensures roots == [] && nodes == map[] && (issued == released <==> strays == {})
      ensures forall k | 0 <= k < table.Length :: table[k] == None
    {
      ghost var m := State();
      var rest, ok := steps, true;
      while rest != [] && ok
        invariant Ok() && m == State() && Inv(m)
        invariant forall step | step in rest :: StepOk(step)
        invariant if ok then Run(m, rest) == Run(old(State()), steps) else m == Run(old(State()), steps)
        decreases |rest|
      {
        assert rest[0] in rest;
        ok := TakeTurn(rest[0]);
        m := State();
        rest := rest[1..];
      }
      UnregisterRoots();
      UnregisterEmpties(m);
      assert forall k | 0 <= k < table.Length :: table[k] == Model().table[k];
    }

    method TakeTurn(step: Step) returns (ok: bool)
      requires Ok() && Inv(State()) && StepOk(step)
      modifies this, table, pathBuf
      ensures Ok() && (State(), ok) == Turn(old(State()), step)
    {
      match step {
        case RootsCommand(newRoots, mounts, ws) => ok := UpdateRoots(newRoots, mounts, ws);
        case InotifyInput(event, w) => ok := ProcessEvent(event, w);
        case Timeout(seen, ws) =>
          CheckMissingRoots(seen, ws);
          ok := true;
      }
    }
  }
}
