/** Ownership of the callback contexts that NativeDB.c hands to SQLite. */
module NativeDb {
  import opened Options

  /** A context allocated by `malloc`, named by the serial number of the allocation. */
  type Context = nat

  /** The Java long fields that hold a context. */
  datatype Field = BusyHandler | UpdateListener | CommitListener

  /** The callbacks SQLite keeps, each with the context it will pass. */
  datatype Hook = BusyHook | UpdateHook | CommitHook | RollbackHook

  function FieldOf(h: Hook): Field {
    match h
    case BusyHook => BusyHandler
    case UpdateHook => UpdateListener
    case CommitHook | RollbackHook => CommitListener
  }

  /** A null field or an unset hook is not in its map. */
  datatype Db = Db(open: bool, fields: map<Field, Context>, hooks: map<Hook, Context>, live: set<Context>,
    next: Context)

  /** What SQLite can call back with is what the field stores. */
  ghost predicate HooksStored(d: Db) {
    forall h | h in d.hooks :: FieldOf(h) in d.fields && d.fields[FieldOf(h)] == d.hooks[h]
  }

  /** The live contexts are those in the fields, one each; the others allocated so far were freed. */
  ghost predicate FieldsOwn(d: Db) {
    && (forall f | f in d.fields :: d.fields[f] in d.live)
    && (forall c | c in d.live :: c < d.next && Stored(d, c))
    && (forall f, g | f in d.fields && g in d.fields && d.fields[f] == d.fields[g] :: f == g)
  }

  ghost predicate Stored(d: Db, c: Context) {
    exists f :: f in d.fields && d.fields[f] == c
  }

  ghost predicate Valid(d: Db) {
    HooksStored(d) && FieldsOwn(d) && (!d.open ==> d.fields == map[] && d.hooks == map[])
  }

  datatype Op =
    | Open
    | SetBusyHandler(enabled: bool)
    | BusyTimeout
    | SetUpdateListener(enabled: bool)
    | SetCommitListener(enabled: bool)
    | Close

  /** The hook setters of SQLite want an open connection; the two listener functions do not check for one. */
  predicate OpOk(d: Db, op: Op) {
    match op
    case Open => !d.open
    case SetUpdateListener(_) | SetCommitListener(_) => d.open
    case SetBusyHandler(_) | BusyTimeout | Close => true
  }

  // ---------- the specification: whole operations ----------

  function Freed(d: Db, f: Field): Db {
    if f in d.fields then d.(live := d.live - {d.fields[f]}) else d
  }

  /** The field and its hooks get a new context; the old one is freed. */
  function Installed(d: Db, f: Field, hooks: set<Hook>): Db {
    var t := Freed(d, f);
    t.(fields := d.fields[f := d.next],
       hooks := d.hooks + map h | h in hooks :: d.next,
       live := t.live + {d.next},
       next := d.next + 1)
  }

  function Cleared(d: Db, f: Field, hooks: set<Hook>): Db {
    var t := Freed(d, f);
    t.(fields := d.fields - {f}, hooks := d.hooks - hooks)
  }

  function HooksOf(f: Field): set<Hook> {
    match f
    case BusyHandler => {BusyHook}
    case UpdateListener => {UpdateHook}
    case CommitListener => {CommitHook, RollbackHook}
  }

  function SetListener(d: Db, f: Field, enabled: bool): Db {
    if enabled then Installed(d, f, HooksOf(f)) else Cleared(d, f, HooksOf(f))
  }

  function Apply(d: Db, op: Op): Db {
    match op
    case Open => d.(open := true)
    case SetBusyHandler(enabled) => if d.open then SetListener(d, BusyHandler, enabled) else d
    case BusyTimeout => if d.open then d.(hooks := d.hooks - {BusyHook}) else d
    case SetUpdateListener(enabled) => SetListener(d, UpdateListener, enabled)
    case SetCommitListener(enabled) => SetListener(d, CommitListener, enabled)
    case Close =>
      if d.open then
        var t := SetListener(SetListener(d, BusyHandler, false), CommitListener, false);
        SetListener(t, UpdateListener, false).(open := false)
      else d
  }

  lemma HooksAreOf(h: Hook, f: Field)
    ensures h in HooksOf(f) <==> FieldOf(h) == f
  {
  }

  lemma InstalledOwns(d: Db, f: Field)
    requires FieldsOwn(d)
    ensures FieldsOwn(Installed(d, f, HooksOf(f)))
  {
    var t := Installed(d, f, HooksOf(f));
    assert t.fields == d.fields[f := d.next] && d.next !in d.live;
    forall c | c in t.live ensures Stored(t, c) {
      if c == d.next {
        assert t.fields[f] == c;
      } else {
        assert Stored(d, c);
        var g :| g in d.fields && d.fields[g] == c;
        assert g in t.fields && t.fields[g] == c;
      }
    }
  }

  lemma ClearedOwns(d: Db, f: Field)
    requires FieldsOwn(d)
    ensures FieldsOwn(Cleared(d, f, HooksOf(f)))
  {
    var t := Cleared(d, f, HooksOf(f));
    forall c | c in t.live ensures Stored(t, c) {
      assert Stored(d, c);
      var g :| g in d.fields && d.fields[g] == c;
      assert g in t.fields && t.fields[g] == c;
    }
  }

  lemma SetListenerValid(d: Db, f: Field, enabled: bool)
    requires Valid(d) && d.open
    ensures Valid(SetListener(d, f, enabled))
  {
    var t := SetListener(d, f, enabled);
    if enabled { InstalledOwns(d, f); } else { ClearedOwns(d, f); }
    forall h | h in t.hooks ensures FieldOf(h) in t.fields && t.fields[FieldOf(h)] == t.hooks[h] { HooksAreOf(h, f); }
  }

  /** A context allocated by then and freed stays freed. */
  ghost predicate NoRevival(d: Db, t: Db) {
    d.next <= t.next && forall c | c in t.live && c < d.next :: c in d.live
  }

  /** Closing clears the three fields one after another, and with them all hooks. */
  lemma CloseValid(d: Db)
    requires Valid(d) && d.open
    ensures var a := SetListener(d, BusyHandler, false);
      var b := SetListener(a, CommitListener, false);
      var c := SetListener(b, UpdateListener, false);
      Valid(a) && Valid(b) && Valid(c) && c.fields == map[] && c.hooks == map[] && c.live == {}
  {
    var a := SetListener(d, BusyHandler, false);
    var b := SetListener(a, CommitListener, false);
    var c := SetListener(b, UpdateListener, false);
    SetListenerValid(d, BusyHandler, false);
    SetListenerValid(a, CommitListener, false);
    SetListenerValid(b, UpdateListener, false);
    forall f ensures f !in c.fields { match f case BusyHandler => case CommitListener => case UpdateListener => }
    forall h ensures h !in c.hooks {
      match h case BusyHook => case UpdateHook => case CommitHook => case RollbackHook =>
    }
    NothingLeft(c);
  }

  lemma NothingLeft(d: Db)
    requires Valid(d) && d.fields == map[]
    ensures d.live == {}
  {
    if c :| c in d.live {}
  }

  lemma ApplyValid(d: Db, op: Op)
    requires Valid(d) && OpOk(d, op)
    ensures Valid(Apply(d, op))
    ensures NoRevival(d, Apply(d, op))
  {
    match op
    case SetBusyHandler(enabled) => if d.open { SetListenerValid(d, BusyHandler, enabled); }
    case SetUpdateListener(enabled) => SetListenerValid(d, UpdateListener, enabled);
    case SetCommitListener(enabled) => SetListenerValid(d, CommitListener, enabled);
    case Close => if d.open { CloseValid(d); }
    case Open =>
    case BusyTimeout =>
  }

  // ---------- runs ----------

  function Run(d: Db, ops: seq<Op>): Db
    decreases |ops|
  {
    if ops == [] then d else Run(Apply(d, ops[0]), ops[1..])
  }

  predicate RunOk(d: Db, ops: seq<Op>)
    decreases |ops|
  {
    ops != [] ==> OpOk(d, ops[0]) && RunOk(Apply(d, ops[0]), ops[1..])
  }

  const CLOSED: Db := Db(false, map[], map[], {}, 0)

  lemma {:induction false} RunValid(d: Db, ops: seq<Op>)
    requires Valid(d) && RunOk(d, ops)
    ensures Valid(Run(d, ops)) && NoRevival(d, Run(d, ops))
    decreases |ops|
  {
    if ops != [] {
      ApplyValid(d, ops[0]);
      RunValid(Apply(d, ops[0]), ops[1..]);
    }
  }

  /** Over any run: a registered context is live and is the one its Java field stores; a freed one is
      never live, stored or registered again; after closing none is left. */
  lemma ContextsAreOwned(ops: seq<Op>, more: seq<Op>)
    requires RunOk(CLOSED, ops) && RunOk(Run(CLOSED, ops), more)
    ensures var d, later := Run(CLOSED, ops), Run(Run(CLOSED, ops), more);
      && (forall h | h in d.hooks ::
            d.hooks[h] in d.live && FieldOf(h) in d.fields && d.fields[FieldOf(h)] == d.hooks[h])
      && (forall c | c in later.live && c < d.next :: c in d.live)
      && (forall f | f in later.fields :: later.fields[f] in later.live)
      && (forall h | h in later.hooks :: later.hooks[h] in later.live)
      && Apply(d, Close).live == {} && Apply(d, Close).hooks == map[] && Apply(d, Close).fields == map[]
  {
    var d := Run(CLOSED, ops);
    RunValid(CLOSED, ops);
    RunValid(d, more);
    ApplyValid(d, Close);
    var closed := Apply(d, Close);
    assert !closed.open;
    NothingLeft(closed);
  }

  // ---------- what the operations are for ----------

  /** The operation sets the callback, if the connection is open. */
  predicate Enables(op: Op, h: Hook) {
    match op
    case SetBusyHandler(enabled) => enabled && h == BusyHook
    case SetUpdateListener(enabled) => enabled && h == UpdateHook
    case SetCommitListener(enabled) => enabled && (h == CommitHook || h == RollbackHook)
    case _ => false
  }

  /** The operation unsets the callback. */
  predicate Disables(op: Op, h: Hook) {
    match op
    case SetBusyHandler(enabled) => !enabled && h == BusyHook
    case BusyTimeout => h == BusyHook
    case SetUpdateListener(enabled) => !enabled && h == UpdateHook
    case SetCommitListener(enabled) => !enabled && (h == CommitHook || h == RollbackHook)
    case Close => true
    case Open => false
  }

  ghost predicate Connected(ops: seq<Op>) {
    exists o :: 0 <= o < |ops| && ops[o] == Open && forall j | o < j < |ops| :: ops[j] != Close
  }

  /** Some operation on the open connection enabled the callback, and none disabled it since. */
  ghost predicate LastEnabled(ops: seq<Op>, h: Hook) {
    exists k :: 0 <= k < |ops| && EnabledAt(ops, h, k)
  }

  ghost predicate EnabledAt(ops: seq<Op>, h: Hook, k: nat)
    requires k < |ops|
  {
    Enables(ops[k], h) && Connected(ops[..k]) && forall j | k < j < |ops| :: !Disables(ops[j], h)
  }

  lemma {:induction false} RunOneMore(d: Db, ops: seq<Op>, op: Op)
    ensures RunOk(d, ops + [op]) <==> RunOk(d, ops) && OpOk(Run(d, ops), op)
    ensures Run(d, ops + [op]) == Apply(Run(d, ops), op)
    decreases |ops|
  {
    var all := ops + [op];
    if ops == [] {
      assert all[1..] == [];
    } else {
      assert all[0] == ops[0] && all[1..] == ops[1..] + [op];
      RunOneMore(Apply(d, ops[0]), ops[1..], op);
    }
  }

  lemma ConnectedOneMore(ops: seq<Op>, op: Op)
    ensures Connected(ops + [op]) <==> op == Open || (Connected(ops) && op != Close)
  {
    var all := ops + [op];
    if op == Open { assert all[|ops|] == Open; }
    if Connected(ops) && op != Close {
      var o :| 0 <= o < |ops| && ops[o] == Open && forall j | o < j < |ops| :: ops[j] != Close;
      assert all[o] == Open && forall j | o < j < |all| :: all[j] != Close;
    }
    if Connected(all) && op != Open {
      var o :| 0 <= o < |all| && all[o] == Open && forall j | o < j < |all| :: all[j] != Close;
      assert ops[o] == Open && forall j | o < j < |ops| :: ops[j] == all[j];
      assert all[|ops|] == op;
    }
  }

  lemma LastEnabledOneMore(ops: seq<Op>, op: Op, h: Hook)
    ensures LastEnabled(ops + [op], h) <==>
      (Enables(op, h) && Connected(ops)) || (LastEnabled(ops, h) && !Disables(op, h))
  {
    var all := ops + [op];
    assert all[..|ops|] == ops;
    forall k: nat | k < |ops| ensures EnabledAt(all, h, k) <==> EnabledAt(ops, h, k) && !Disables(op, h) {
      assert all[..k] == ops[..k];
      assert all[|ops|] == op;
    }
    assert EnabledAt(all, h, |ops|) <==> Enables(op, h) && Connected(ops);
    if LastEnabled(ops, h) && !Disables(op, h) {
      var k :| 0 <= k < |ops| && EnabledAt(ops, h, k);
      assert EnabledAt(all, h, k);
    }
    if LastEnabled(all, h) {
      var k :| 0 <= k < |all| && EnabledAt(all, h, k);
      assert k == |ops| || EnabledAt(ops, h, k);
    }
  }

  /** What one operation does to the callbacks. */
  lemma HooksAfter(d: Db, op: Op, h: Hook)
    requires Valid(d) && OpOk(d, op)
    ensures Apply(d, op).open <==> op == Open || (d.open && op != Close)
    ensures h in Apply(d, op).hooks <==> (Enables(op, h) && d.open) || (h in d.hooks && !Disables(op, h))
  {
    HooksAreOf(h, BusyHandler);
    HooksAreOf(h, UpdateListener);
    HooksAreOf(h, CommitListener);
  }

  /** A callback is registered if and only if the last operation about it on the open connection enabled it. */
  lemma {:induction false} RegisteredIff(ops: seq<Op>, h: Hook)
    requires RunOk(CLOSED, ops)
    ensures Run(CLOSED, ops).open <==> Connected(ops)
    ensures h in Run(CLOSED, ops).hooks <==> LastEnabled(ops, h)
    decreases |ops|
  {
    if ops != [] {
      var before, op := ops[..|ops| - 1], ops[|ops| - 1];
      assert ops == before + [op];
      RunOneMore(CLOSED, before, op);
      RegisteredIff(before, h);
      RunValid(CLOSED, before);
      HooksAfter(Run(CLOSED, before), op, h);
      ConnectedOneMore(before, op);
      LastEnabledOneMore(before, op, h);
    }
  }

  predicate EnablesField(op: Op, f: Field) {
    match f
    case BusyHandler => op == SetBusyHandler(true)
    case UpdateListener => op == SetUpdateListener(true)
    case CommitListener => op == SetCommitListener(true)
  }

  predicate DisablesField(op: Op, f: Field) {
    match f
    case BusyHandler => op == SetBusyHandler(false)
    case UpdateListener => op == SetUpdateListener(false)
    case CommitListener => op == SetCommitListener(false)
  }

  /** Enabling registers a context newer than all before for exactly the callbacks of the operation and stores it;
      the one stored before is freed, and no other field, callback or context changes. */
  lemma EnablingRegisters(d: Db, op: Op, f: Field)
    requires Valid(d) && d.open && EnablesField(op, f)
    ensures var t, c := Apply(d, op), d.next;
      && (forall x | x in d.live :: x < c) && t.next == c + 1 && t.open
      && t.fields == d.fields[f := c]
      && t.live == d.live - (if f in d.fields then {d.fields[f]} else {}) + {c}
      && (forall h | Enables(op, h) :: h in t.hooks && t.hooks[h] == c)
      && (forall h | !Enables(op, h) :: (h in t.hooks <==> h in d.hooks) && (h in d.hooks ==> t.hooks[h] == d.hooks[h]))
  {
    forall h ensures h in HooksOf(f) <==> Enables(op, h) {}
  }

  /** Disabling unregisters exactly the callbacks of the operation and frees the context stored for them. */
  lemma DisablingUnregisters(d: Db, op: Op, f: Field)
    requires Valid(d) && d.open && DisablesField(op, f)
    ensures var t := Apply(d, op);
      && t.next == d.next && t.open
      && t.fields == d.fields - {f}
      && t.live == d.live - (if f in d.fields then {d.fields[f]} else {})
      && (forall h :: h in t.hooks <==> h in d.hooks && !Disables(op, h))
      && (forall h | h in t.hooks :: t.hooks[h] == d.hooks[h])
  {
    forall h ensures h in HooksOf(f) <==> Disables(op, h) {}
  }

  /** The timeout unregisters the busy handler and keeps its context; on a closed connection the operations that
      check for one change nothing. */
  lemma TimeoutKeepsContext(d: Db)
    requires Valid(d)
    ensures var t := Apply(d, BusyTimeout);
      t.fields == d.fields && t.live == d.live && t.next == d.next && t.hooks == d.hooks - {BusyHook}
    ensures !d.open ==> forall op: Op | op.SetBusyHandler? || op == BusyTimeout || op == Close :: Apply(d, op) == d
  {
    assert d.hooks - {BusyHook} == d.hooks || d.open;
  }

  // ---------- the code ----------

  /** The calls that set the hooks of a field, and those that unset them. */
  lemma HookCalls(hooks: map<Hook, Context>, c: Context)
    ensures hooks + (map h | h in HooksOf(BusyHandler) :: c) == hooks[BusyHook := c]
    ensures hooks + (map h | h in HooksOf(UpdateListener) :: c) == hooks[UpdateHook := c]
    ensures hooks + (map h | h in HooksOf(CommitListener) :: c) == hooks[CommitHook := c][RollbackHook := c]
    ensures hooks - HooksOf(CommitListener) == hooks - {CommitHook} - {RollbackHook}
  {
  }

  /** No hook outlives the context of its field: once the hooks of `f` are set anew, the old context is unused. */
  lemma OldContextUnused(d: Db, f: Field, hooks: map<Hook, Context>)
    requires Valid(d) && f in d.fields
    requires forall h | h in hooks && h in HooksOf(f) :: hooks[h] == d.next
    requires forall h | h in hooks && h !in HooksOf(f) :: h in d.hooks && hooks[h] == d.hooks[h]
    ensures d.fields[f] in d.live && forall h | h in hooks :: hooks[h] != d.fields[f]
  {
    forall h | h in hooks ensures hooks[h] != d.fields[f] { HooksAreOf(h, f); }
  }

  class NativeDB {
    var open: bool
    var fields: map<Field, Context>
    var hooks: map<Hook, Context>
    var live: set<Context>
    var next: Context

    ghost function Model(): Db
      reads this
    {
      Db(open, fields, hooks, live, next)
    }

    constructor ()
      ensures Model() == CLOSED
    {
      open, fields, hooks, live, next := false, map[], map[], {}, 0;
    }

    /** `malloc` */
    method NewContext() returns (c: Context)
      modifies this`live, this`next
      ensures c == old(next) && next == c + 1 && live == old(live) + {c}
    {
      c := next;
      live, next := live + {c}, next + 1;
    }

    /** The `free_handler` callbacks: what is freed is live, and SQLite no longer calls back with it. */
    method FreeContext(c: Context)
      requires c in live && forall h | h in hooks :: hooks[h] != c
      modifies this`live
      ensures live == old(live) - {c}
    {
      live := live - {c};
    }

    /** `set_new_handler`: frees the context in the field, then stores the new one. */
    method SetNewHandler(field: Field, handler: Option<Context>)
      requires field in fields ==> fields[field] in live && forall h | h in hooks :: hooks[h] != fields[field]
      modifies this`fields, this`live
      ensures fields == match handler case None => old(fields) - {field} case Some(c) => old(fields)[field := c]
      ensures live == if field in old(fields) then old(live) - {old(fields)[field]} else old(live)
    {
      if field in fields { FreeContext(fields[field]); }
      match handler {
        case None => fields := fields - {field};
        case Some(c) => fields := fields[field := c];
      }
    }

    /** `change_busy_handler` */
    method ChangeBusyHandler(enabled: bool)
      requires Valid(Model())
      modifies this
      ensures Model() == Apply(old(Model()), SetBusyHandler(enabled))
    {
      ghost var d := Model();
      HookCalls(hooks, next);
      if !open { return; }
      if enabled {
        var c := NewContext();
        hooks := hooks[BusyHook := c];
        if BusyHandler in fields { OldContextUnused(d, BusyHandler, hooks); }
        SetNewHandler(BusyHandler, Some(c));
      } else {
        hooks := hooks - {BusyHook};
        if BusyHandler in fields { OldContextUnused(d, BusyHandler, hooks); }
        SetNewHandler(BusyHandler, None);
      }
    }

    /** `sqlite3_busy_timeout` replaces the busy handler by SQLite's own; the field keeps its context. */
    method SetBusyTimeout()
      modifies this`hooks
      ensures Model() == Apply(old(Model()), BusyTimeout)
    {
      if !open { return; }
      hooks := hooks - {BusyHook};
    }

    /** `set_update_listener` and `clear_update_listener` */
    method ChangeUpdateListener(enabled: bool)
      requires Valid(Model()) && open
      modifies this
      ensures Model() == Apply(old(Model()), SetUpdateListener(enabled))
    {
      ghost var d := Model();
      HookCalls(hooks, next);
      if enabled {
        var c := NewContext();
        hooks := hooks[UpdateHook := c];
        if UpdateListener in fields { OldContextUnused(d, UpdateListener, hooks); }
        SetNewHandler(UpdateListener, Some(c));
      } else {
        hooks := hooks - {UpdateHook};
        if UpdateListener in fields { OldContextUnused(d, UpdateListener, hooks); }
        SetNewHandler(UpdateListener, None);
      }
    }

    /** `set_commit_listener` and `clear_commit_listener` */
    method ChangeCommitListener(enabled: bool)
      requires Valid(Model()) && open
      modifies this
      ensures Model() == Apply(old(Model()), SetCommitListener(enabled))
    {
      ghost var d := Model();
      HookCalls(hooks, next);
      if enabled {
        var c := NewContext();
        hooks := hooks[CommitHook := c];
        hooks := hooks[RollbackHook := c];
        if CommitListener in fields { OldContextUnused(d, CommitListener, hooks); }
        SetNewHandler(CommitListener, Some(c));
      } else {
        hooks := hooks - {CommitHook};
        hooks := hooks - {RollbackHook};
        if CommitListener in fields { OldContextUnused(d, CommitListener, hooks); }
        SetNewHandler(CommitListener, None);
      }
    }

    /** `_close`; the handle is dropped even if SQLite reports that it cannot close. */
    method CloseDb()
      requires Valid(Model())
      modifies this
      ensures Model() == Apply(old(Model()), Close)
      ensures live == {} && fields == map[] && hooks == map[]
    {
      if open {
        CloseValid(Model());
        ChangeBusyHandler(false);
        ChangeCommitListener(false);
        ChangeUpdateListener(false);
        open := false;
      } else {
        NothingLeft(Model());
      }
    }
  }
}
