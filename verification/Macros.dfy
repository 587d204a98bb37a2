/** Macro expansion of the launcher: sequential replacement against simultaneous substitution. */
module Macros {
  datatype Macro = Macro(name: string, value: string)

  const USER_HOME_MACRO: string := "$USER_HOME"
  const IDE_HOME_MACRO: string := "$IDE_HOME"
  const IDE_CACHE_DIR_MACRO: string := "$IDE_CACHE_DIR"

  /** `str::replace`: left to right, without overlaps. */
  function Replace(s: string, m: Macro): string
    requires m.name != ""
    decreases |s|
  {
    if s == "" then ""
    else if m.name <= s then m.value + Replace(s[|m.name|..], m)
    else [s[0]] + Replace(s[1..], m)
  }

  /** One macro after another, as `get_vm_options` does. */
  function Expand(s: string, ms: seq<Macro>): string
    requires forall i | 0 <= i < |ms| :: ms[i].name != ""
    decreases |ms|
  {
    if ms == [] then s else Expand(Replace(s, ms[0]), ms[1..])
  }

  // ---------- the reference: all macros at once, left to right ----------

  /** The index of the first macro that starts `s`, or |ms|. */
  function Match(s: string, ms: seq<Macro>): (k: nat)
    ensures k <= |ms| && (k < |ms| ==> ms[k].name <= s)
    ensures forall j | 0 <= j < k :: !(ms[j].name <= s)
  {
    if ms == [] then 0 else if ms[0].name <= s then 0 else 1 + Match(s, ms[1..])
  }

  function Simultaneous(s: string, ms: seq<Macro>): string
    requires forall i | 0 <= i < |ms| :: ms[i].name != ""
    decreases |s|
  {
    if s == "" then ""
    else
      var k := Match(s, ms);
      if k < |ms| then ms[k].value + Simultaneous(s[|ms[k].name|..], ms)
      else [s[0]] + Simultaneous(s[1..], ms)
  }

  // ---------- the side conditions ----------

  predicate MacroName(name: string) {
    name != "" && name[0] == '$' && forall i | 1 <= i < |name| :: name[i] != '$' && name[i] != '/'
  }

  /** Macro names none of which starts another, and absolute paths to put in their place. */
  ghost predicate WellFormed(ms: seq<Macro>) {
    && (forall i | 0 <= i < |ms| :: MacroName(ms[i].name) && ms[i].value != "" && ms[i].value[0] == '/')
    && (forall i, j | 0 <= i < |ms| && 0 <= j < |ms| && i != j :: !(ms[i].name <= ms[j].name))
  }

  /** `name` neither occurs in `value` nor starts at its end. */
  predicate Inert(value: string, name: string) {
    forall k | 0 <= k < |value| :: !(name <= value[k..]) && !(value[k..] <= name)
  }

  /** No value can produce a macro that is replaced later. */
  ghost predicate Ordered(ms: seq<Macro>) {
    forall i, j | 0 <= i < j < |ms| :: Inert(ms[i].value, ms[j].name)
  }

  /** No value can produce any other macro. */
  ghost predicate Separate(ms: seq<Macro>) {
    forall i, j | 0 <= i < |ms| && 0 <= j < |ms| && i != j :: Inert(ms[i].value, ms[j].name)
  }

  /** No value can produce its own macro or one that was replaced before. */
  ghost predicate Final(ms: seq<Macro>) {
    forall i, j | 0 <= j <= i < |ms| :: Inert(ms[i].value, ms[j].name)
  }

  predicate DollarFree(s: string) {
    forall i | 0 <= i < |s| :: s[i] != '$'
  }

  /** An absolute path without a dollar sign. */
  predicate SafeValue(value: string) {
    value != "" && value[0] == '/' && DollarFree(value)
  }

  ghost predicate SafeMacros(ms: seq<Macro>) {
    WellFormed(ms) && forall i | 0 <= i < |ms| :: SafeValue(ms[i].value)
  }

  lemma DollarFreeIsInert(v: string, name: string)
    requires MacroName(name) && DollarFree(v)
    ensures Inert(v, name)
  {
    forall k | 0 <= k < |v| ensures !(name <= v[k..]) && !(v[k..] <= name) { assert v[k..][0] == v[k]; }
  }

  lemma SafeIsSeparate(ms: seq<Macro>)
    requires SafeMacros(ms)
    ensures Separate(ms) && Ordered(ms) && Final(ms)
  {
    forall i, j | 0 <= i < |ms| && 0 <= j < |ms| ensures Inert(ms[i].value, ms[j].name) {
      DollarFreeIsInert(ms[i].value, ms[j].name);
    }
  }

  // ---------- replacing one macro ----------

  /** Text in which no macro starts is passed over. */
  lemma {:induction false} ReplaceSkips(v: string, t: string, m: Macro)
    requires MacroName(m.name) && Inert(v, m.name)
    ensures Replace(v + t, m) == v + Replace(t, m)
  {
    if v == "" {
      assert v + t == t;
    } else {
      assert (v + t)[1..] == v[1..] + t;
      InertHead(v, t, m.name);
      ReplaceSkips(v[1..], t, m);
    }
  }

  lemma InertHead(v: string, t: string, name: string)
    requires v != "" && Inert(v, name)
    ensures !(name <= v + t) && Inert(v[1..], name)
  {
    assert v[0..] == v;
    if name <= v + t { PrefixesComparable(name, v, v + t); }
    forall k | 0 <= k < |v[1..]|
      ensures !(name <= v[1..][k..]) && !(v[1..][k..] <= name)
    {
      assert v[1..][k..] == v[k + 1..];
    }
  }

  /** So is a dollar sign that starts no occurrence, with the dollar-free text after it. */
  lemma ReplaceSkipsName(name: string, t: string, m: Macro)
    requires MacroName(m.name) && MacroName(name) && !(m.name <= name + t)
    ensures Replace(name + t, m) == name + Replace(t, m)
  {
    assert (name + t)[1..] == name[1..] + t;
    DollarFreeIsInert(name[1..], m.name);
    ReplaceSkips(name[1..], t, m);
    assert name == [name[0]] + name[1..];
  }

  /** Slash- and dollar-free text at the start of the result was at the start of the input. */
  lemma {:induction false} ReplaceReflects(x: string, t: string, m: Macro)
    requires MacroName(m.name) && m.value != "" && m.value[0] == '/'
    requires '/' !in x && DollarFree(x) && x <= Replace(t, m)
    ensures x <= t
  {
    if x != "" {
      assert t != "" && x[0] in x && x[0] == Replace(t, m)[0];
      if !(m.name <= t) {
        assert x[1..] <= Replace(t[1..], m);
        ReplaceReflects(x[1..], t[1..], m);
        assert t == [t[0]] + t[1..] && x == [x[0]] + x[1..];
      }
    }
  }

  lemma PrefixesComparable(a: string, b: string, s: string)
    requires a <= s && b <= s
    ensures a <= b || b <= a
  {
    assert a == s[..|a|] && b == s[..|b|];
  }

  /** Where `m` itself does not start, replacing it neither creates nor destroys another macro. */
  lemma ReplaceKeepsMatches(s: string, m: Macro, name: string)
    requires MacroName(m.name) && m.value != "" && m.value[0] == '/' && MacroName(name) && !(m.name <= s)
    ensures name <= Replace(s, m) <==> name <= s
  {
    if name <= s {
      var t := s[|name|..];
      assert s == name + t;
      ReplaceSkipsName(name, t, m);
    }
    if s != "" && name <= Replace(s, m) {
      assert name[1..] <= Replace(s[1..], m);
      ReplaceReflects(name[1..], s[1..], m);
      assert name == [name[0]] + name[1..] && s == [s[0]] + s[1..];
    }
  }

  // ---------- all macros ----------

  lemma OneMatch(s: string, ms: seq<Macro>, k: nat)
    requires WellFormed(ms) && k < |ms| && ms[k].name <= s
    ensures Match(s, ms) == k
  {
    forall j | 0 <= j < |ms| && ms[j].name <= s ensures j == k { PrefixesComparable(ms[j].name, ms[k].name, s); }
  }

  lemma SimultaneousPasses(c: char, t: string, ms: seq<Macro>)
    requires WellFormed(ms) && Match([c] + t, ms) == |ms|
    ensures Simultaneous([c] + t, ms) == [c] + Simultaneous(t, ms)
  {
    assert ([c] + t)[1..] == t;
  }

  lemma Uncons(v: string, r: string)
    requires v != ""
    ensures v + r == [v[0]] + (v[1..] + r)
  {
  }

  lemma {:induction false} SimultaneousSkips(v: string, t: string, ms: seq<Macro>)
    requires WellFormed(ms) && forall j | 0 <= j < |ms| :: Inert(v, ms[j].name)
    ensures Simultaneous(v + t, ms) == v + Simultaneous(t, ms)
  {
    if v == "" {
      assert v + t == t;
    } else {
      var c, w := v[0], v[1..];
      Uncons(v, t);
      forall j | 0 <= j < |ms| ensures !(ms[j].name <= v + t) && Inert(w, ms[j].name) { InertHead(v, t, ms[j].name); }
      SimultaneousPasses(c, w + t, ms);
      SimultaneousSkips(w, t, ms);
      Uncons(v, Simultaneous(t, ms));
    }
  }

  lemma SimultaneousAt(t: string, ms: seq<Macro>, k: nat)
    requires WellFormed(ms) && k < |ms|
    ensures Simultaneous(ms[k].name + t, ms) == ms[k].value + Simultaneous(t, ms)
  {
    var s := ms[k].name + t;
    OneMatch(s, ms, k);
    assert s[|ms[k].name|..] == t;
  }

  lemma SimultaneousAtMacro(t: string, ms: seq<Macro>, k: nat, m: Macro)
    requires WellFormed(ms) && k < |ms| && ms[k] == m
    ensures Simultaneous(m.name + t, ms) == m.value + Simultaneous(t, ms)
  {
    SimultaneousAt(t, ms, k);
  }

  lemma StepAtOther(t: string, r: string, ms: seq<Macro>, k: nat)
    requires WellFormed(ms) && 1 <= k < |ms| && WellFormed(ms[1..])
    requires Simultaneous(r, ms[1..]) == Simultaneous(t, ms)
    ensures Simultaneous(ms[k].name + r, ms[1..]) == Simultaneous(ms[k].name + t, ms)
  {
    SimultaneousAt(t, ms, k);
    SimultaneousAtMacro(r, ms[1..], k - 1, ms[k]);
  }

  lemma StepAtNone(s: string, ms: seq<Macro>)
    requires WellFormed(ms) && ms != [] && s != "" && Match(s, ms) == |ms|
    requires Simultaneous(Replace(s[1..], ms[0]), ms[1..]) == Simultaneous(s[1..], ms)
    ensures Simultaneous(Replace(s, ms[0]), ms[1..]) == Simultaneous(s, ms)
  {
    var m, rest := ms[0], ms[1..];
    forall j | 0 <= j < |rest| ensures !(rest[j].name <= Replace(s, m)) {
      assert rest[j] == ms[j + 1];
      ReplaceKeepsMatches(s, m, rest[j].name);
    }
    assert Replace(s, m)[1..] == Replace(s[1..], m);
  }

  lemma Tail(ms: seq<Macro>)
    requires WellFormed(ms) && ms != []
    ensures WellFormed(ms[1..]) && (Ordered(ms) ==> Ordered(ms[1..]))
  {
    assert forall j | 0 <= j < |ms[1..]| :: ms[1..][j] == ms[j + 1];
  }

  /** Replacing the first macro throughout, then the others at once, replaces all of them at once. */
  lemma {:induction false} ReplaceThenSimultaneous(s: string, ms: seq<Macro>)
    requires WellFormed(ms) && ms != [] && Ordered(ms)
    ensures Simultaneous(Replace(s, ms[0]), ms[1..]) == Simultaneous(s, ms)
    decreases |s|
  {
    if s != "" {
      var k := Match(s, ms);
      if k == |ms| {
        ReplaceThenSimultaneous(s[1..], ms);
        StepAtNone(s, ms);
      } else {
        ReplaceThenSimultaneous(s[|ms[k].name|..], ms);
        if k == 0 {
          Tail(ms);
          SimultaneousSkips(ms[0].value, Replace(s[|ms[0].name|..], ms[0]), ms[1..]);
        } else {
          var t := s[|ms[k].name|..];
          assert s == ms[k].name + t;
          ReplaceSkipsName(ms[k].name, t, ms[0]);
          Tail(ms);
          StepAtOther(t, Replace(t, ms[0]), ms, k);
        }
      }
    }
  }

  lemma {:induction false} NothingToReplace(s: string)
    ensures Simultaneous(s, []) == s
    decreases |s|
  {
    if s != "" { NothingToReplace(s[1..]); }
  }

  /** Replacing the macros one after another is a single left-to-right simultaneous substitution. */
  lemma {:induction false} ExpandIsSimultaneous(s: string, ms: seq<Macro>)
    requires WellFormed(ms) && Ordered(ms)
    ensures Expand(s, ms) == Simultaneous(s, ms)
    decreases |ms|
  {
    if ms == [] {
      NothingToReplace(s);
    } else {
      Tail(ms);
      ExpandIsSimultaneous(Replace(s, ms[0]), ms[1..]);
      ReplaceThenSimultaneous(s, ms);
    }
  }

  lemma {:induction false} SimultaneousIgnoresOrder(s: string, ms: seq<Macro>, ns: seq<Macro>)
    requires WellFormed(ms) && WellFormed(ns) && forall m :: m in ms <==> m in ns
    ensures Simultaneous(s, ms) == Simultaneous(s, ns)
    decreases |s|
  {
    if s != "" {
      var k := Match(s, ms);
      if k < |ms| {
        assert ms[k] in ns;
        var j :| 0 <= j < |ns| && ns[j] == ms[k];
        OneMatch(s, ns, j);
        SimultaneousIgnoresOrder(s[|ms[k].name|..], ms, ns);
      } else {
        forall l | 0 <= l < |ns| ensures !(ns[l].name <= s) {
          assert ns[l] in ms;
          var j :| 0 <= j < |ms| && ms[j] == ns[l];
        }
        SimultaneousIgnoresOrder(s[1..], ms, ns);
      }
    }
  }

  // ---------- the exact condition ----------

  /** At the first difference a dollar sign has become a slash. */
  ghost predicate Lowered(x: string, y: string) {
    exists p :: LoweredAt(x, y, p)
  }

  ghost predicate LoweredAt(x: string, y: string, p: int) {
    0 <= p < |x| && p < |y| && x[..p] == y[..p] && x[p] == '$' && y[p] == '/'
  }

  lemma LoweredTransitive(x: string, y: string, z: string)
    requires Lowered(x, y) && Lowered(y, z)
    ensures Lowered(x, z)
  {
    var p :| LoweredAt(x, y, p);
    var q :| LoweredAt(y, z, q);
    var r := if p < q then p else q;
    assert x[..r] == x[..p][..r] == y[..p][..r] == y[..r] && y[..r] == y[..q][..r] == z[..q][..r] == z[..r];
    assert p < q ==> y[p] == y[..q][p] == z[..q][p];
    assert q < p ==> x[q] == x[..p][q] == y[..p][q];
    assert LoweredAt(x, z, r);
  }

  ghost predicate Occurs(name: string, s: string) {
    exists k :: 0 <= k <= |s| && name <= s[k..]
  }

  lemma LoweredCons(c: char, x: string, y: string)
    requires Lowered(x, y)
    ensures Lowered([c] + x, [c] + y)
  {
    var p :| LoweredAt(x, y, p);
    assert ([c] + x)[..p + 1] == [c] + x[..p] && ([c] + y)[..p + 1] == [c] + y[..p];
    assert LoweredAt([c] + x, [c] + y, p + 1);
  }

  lemma OccursInTail(name: string, s: string)
    requires s != "" && !(name <= s)
    ensures Occurs(name, s) <==> Occurs(name, s[1..])
  {
    forall k | 0 <= k <= |s[1..]| ensures s[1..][k..] == s[k + 1..] {}
    if Occurs(name, s) {
      var k :| 0 <= k <= |s| && name <= s[k..];
      assert s[0..] == s;
      assert name <= s[1..][k - 1..];
    }
  }

  /** Replacing a macro that occurs changes the text, and one that does not leaves it. */
  lemma {:induction false} ReplaceLowers(s: string, m: Macro)
    requires MacroName(m.name) && m.value != "" && m.value[0] == '/'
    ensures if Occurs(m.name, s) then Lowered(s, Replace(s, m)) else Replace(s, m) == s
    decreases |s|
  {
    if s == "" {
    } else if m.name <= s {
      assert s[0..] == s;
      assert LoweredAt(s, Replace(s, m), 0);
    } else {
      ReplaceLowers(s[1..], m);
      OccursInTail(m.name, s);
      assert s == [s[0]] + s[1..];
      if Occurs(m.name, s) { LoweredCons(s[0], s[1..], Replace(s[1..], m)); }
    }
  }

  lemma {:induction false} ExpandLowers(s: string, ms: seq<Macro>)
    requires WellFormed(ms)
    ensures if exists j :: 0 <= j < |ms| && Occurs(ms[j].name, s) then Lowered(s, Expand(s, ms)) else Expand(s, ms) == s
    decreases |ms|
  {
    if ms != [] {
      var t := Replace(s, ms[0]);
      ReplaceLowers(s, ms[0]);
      Tail(ms);
      ExpandLowers(t, ms[1..]);
      assert forall j | 1 <= j < |ms| :: ms[j] == ms[1..][j - 1];
      if Occurs(ms[0].name, s) && Lowered(t, Expand(t, ms[1..])) { LoweredTransitive(s, t, Expand(t, ms[1..])); }
    }
  }

  /** Where a value can produce another macro, this text after it does. */
  lemma TrapOccurs(value: string, other: string, k: nat)
    requires k < |value| && (other <= value[k..] || value[k..] <= other)
    ensures Occurs(other, value + if |value| - k < |other| then other[|value| - k..] else "")
  {
    var tail := if |value| - k < |other| then other[|value| - k..] else "";
    assert (value + tail)[k..] == value[k..] + tail;
    if |value| - k < |other| { assert other == other[..|value| - k] + tail; }
  }

  /** A macro's name and dollar-free text after it: only that macro occurs. */
  lemma OnlyOwnName(ms: seq<Macro>, i: nat, tail: string, j: nat)
    requires WellFormed(ms) && i < |ms| && j < |ms| && j != i && DollarFree(tail)
    ensures !Occurs(ms[j].name, ms[i].name + tail)
  {
    var s := ms[i].name + tail;
    forall k | 0 <= k <= |s| && ms[j].name <= s[k..] ensures false {
      assert s[k..][0] == s[k];
      if k == 0 { PrefixesComparable(ms[j].name, ms[i].name, s); }
    }
  }

  /** Before its turn comes nothing happens to it; then the value stands there. */
  lemma {:induction false} ExpandReaches(ms: seq<Macro>, i: nat, tail: string)
    requires WellFormed(ms) && i < |ms| && DollarFree(tail)
    ensures Expand(ms[i].name + tail, ms) == Expand(ms[i].value + tail, ms[i + 1..])
    decreases i
  {
    var s := ms[i].name + tail;
    if i == 0 {
      assert s[|ms[0].name|..] == tail;
      DollarFreeIsInert(tail, ms[0].name);
      ReplaceSkips(tail, "", ms[0]);
      assert tail + "" == tail;
    } else {
      OnlyOwnName(ms, i, tail, 0);
      ReplaceLowers(s, ms[0]);
      Tail(ms);
      assert ms[1..][i - 1] == ms[i] && ms[1..][i..] == ms[i + 1..];
      ExpandReaches(ms[1..], i - 1, tail);
    }
  }

  lemma SimultaneousReaches(ms: seq<Macro>, i: nat, tail: string)
    requires WellFormed(ms) && i < |ms| && DollarFree(tail)
    ensures Simultaneous(ms[i].name + tail, ms) == ms[i].value + tail
  {
    SimultaneousAt(tail, ms, i);
    forall j | 0 <= j < |ms| ensures Inert(tail, ms[j].name) { DollarFreeIsInert(tail, ms[j].name); }
    SimultaneousSkips(tail, "", ms);
    assert tail + "" == tail;
  }

  /** So it is expanded once more if the other macro comes later. */
  lemma TrapSprings(ms: seq<Macro>, i: nat, j: nat, k: nat) returns (tail: string)
    requires WellFormed(ms) && i < |ms| && j < |ms| && i != j && k < |ms[i].value|
    requires ms[j].name <= ms[i].value[k..] || ms[i].value[k..] <= ms[j].name
    ensures DollarFree(tail) && Occurs(ms[j].name, ms[i].value + tail)
    ensures i < j ==> Expand(ms[i].name + tail, ms) != ms[i].value + tail
  {
    var value, other := ms[i].value, ms[j].name;
    tail := if |value| - k < |other| then other[|value| - k..] else "";
    TrapOccurs(value, other, k);
    if i < j {
      ExpandReaches(ms, i, tail);
      var rest := ms[i + 1..];
      WellFormedSuffix(ms, i + 1);
      ExpandLowers(value + tail, rest);
      assert rest[j - i - 1] == ms[j];
    }
  }

  lemma WellFormedSuffix(ms: seq<Macro>, i: nat)
    requires WellFormed(ms) && i <= |ms|
    ensures WellFormed(ms[i..])
  {
    assert forall j | 0 <= j < |ms| - i :: ms[i..][j] == ms[i + j];
  }

  /** Sequential replacement is simultaneous substitution, on all texts, if and only if no value can produce
      a macro that is replaced later. */
  lemma ExpandIsSimultaneousIff(ms: seq<Macro>)
    requires WellFormed(ms)
    ensures (forall s :: Expand(s, ms) == Simultaneous(s, ms)) <==> Ordered(ms)
  {
    if Ordered(ms) {
      forall s ensures Expand(s, ms) == Simultaneous(s, ms) { ExpandIsSimultaneous(s, ms); }
    } else {
      var i, j :| 0 <= i < j < |ms| && !Inert(ms[i].value, ms[j].name);
      var k :| 0 <= k < |ms[i].value| && (ms[j].name <= ms[i].value[k..] || ms[i].value[k..] <= ms[j].name);
      var tail := TrapSprings(ms, i, j, k);
      SimultaneousReaches(ms, i, tail);
    }
  }

  /** The same macros, in any order. */
  ghost predicate Reordered(ms: seq<Macro>, ns: seq<Macro>) {
    WellFormed(ns) && forall m :: m in ms <==> m in ns
  }

  lemma SeparateInAnyOrder(ms: seq<Macro>, ns: seq<Macro>)
    requires Separate(ms) && Reordered(ms, ns)
    ensures Ordered(ns)
  {
    forall i, j | 0 <= i < j < |ns| ensures Inert(ns[i].value, ns[j].name) {
      assert ns[i] in ms && ns[j] in ms;
      var k, l :| 0 <= k < |ms| && 0 <= l < |ms| && ms[k] == ns[i] && ms[l] == ns[j];
      assert !(ns[i].name <= ns[j].name);
    }
  }

  lemma MoveToEnd(ms: seq<Macro>, i: nat) returns (ns: seq<Macro>)
    requires WellFormed(ms) && i < |ms|
    ensures Reordered(ms, ns) && ns != [] && ns[|ns| - 1] == ms[i]
  {
    ns := ms[..i] + ms[i + 1..] + [ms[i]];
    var at := (j: int) => if j < i then j else if j < |ms| - 1 then j + 1 else i;
    assert forall j | 0 <= j < |ns| :: 0 <= at(j) < |ms| && ns[j] == ms[at(j)];
    forall m ensures m in ms <==> m in ns {
      if m in ms {
        var j :| 0 <= j < |ms| && ms[j] == m;
        assert ns[if j < i then j else if j == i then |ms| - 1 else j - 1] == m;
      }
    }
  }

  lemma MoveToFront(ms: seq<Macro>, i: nat) returns (ns: seq<Macro>)
    requires WellFormed(ms) && i < |ms|
    ensures Reordered(ms, ns) && ns != [] && ns[0] == ms[i]
  {
    ns := [ms[i]] + ms[..i] + ms[i + 1..];
    var at := (j: int) => if j == 0 then i else if j <= i then j - 1 else j;
    assert forall j | 0 <= j < |ns| :: 0 <= at(j) < |ms| && ns[j] == ms[at(j)];
    forall m ensures m in ms <==> m in ns {
      if m in ms {
        var j :| 0 <= j < |ms| && ms[j] == m;
        assert ns[if j < i then j + 1 else if j == i then 0 else j] == m;
      }
    }
  }

  /** The order of the replacements does not matter, on any text, if and only if no value can produce any
      other macro. */
  lemma ExpandIgnoresOrderIff(ms: seq<Macro>)
    requires WellFormed(ms)
    ensures (forall s, ns | Reordered(ms, ns) :: Expand(s, ns) == Expand(s, ms)) <==> Separate(ms)
  {
    assert Reordered(ms, ms);
    if Separate(ms) {
      forall s, ns | Reordered(ms, ns) ensures Expand(s, ns) == Expand(s, ms) {
        SeparateInAnyOrder(ms, ns);
        SeparateInAnyOrder(ms, ms);
        ExpandIsSimultaneous(s, ns);
        ExpandIsSimultaneous(s, ms);
        SimultaneousIgnoresOrder(s, ms, ns);
      }
    } else {
      var i, j :| 0 <= i < |ms| && 0 <= j < |ms| && i != j && !Inert(ms[i].value, ms[j].name);
      var s, first, last := OrdersDiffer(ms, i, j);
      assert Expand(s, first) != Expand(s, ms) || Expand(s, last) != Expand(s, ms);
    }
  }

  lemma OrdersDiffer(ms: seq<Macro>, i: nat, j: nat) returns (s: string, first: seq<Macro>, last: seq<Macro>)
    requires WellFormed(ms) && i < |ms| && j < |ms| && i != j && !Inert(ms[i].value, ms[j].name)
    ensures Reordered(ms, first) && Reordered(ms, last) && Expand(s, first) != Expand(s, last)
  {
    first := MoveToFront(ms, i);
    last := MoveToEnd(ms, i);
    assert ms[j] in first && !(ms[i].name <= ms[j].name);
    var tail := FirstTrapSprings(first, ms[j]);
    s := ms[i].name + tail;
    LastStays(last, tail);
  }

  lemma FirstTrapSprings(ms: seq<Macro>, other: Macro) returns (tail: string)
    requires WellFormed(ms) && ms != [] && other in ms && other.name != ms[0].name && !Inert(ms[0].value, other.name)
    ensures DollarFree(tail) && Expand(ms[0].name + tail, ms) != ms[0].value + tail
  {
    var l :| 0 <= l < |ms| && ms[l] == other;
    var k :| 0 <= k < |ms[0].value| && (other.name <= ms[0].value[k..] || ms[0].value[k..] <= other.name);
    tail := TrapSprings(ms, 0, l, k);
  }

  lemma LastStays(ms: seq<Macro>, tail: string)
    requires WellFormed(ms) && ms != [] && DollarFree(tail)
    ensures var m := ms[|ms| - 1]; Expand(m.name + tail, ms) == m.value + tail
  {
    ExpandReaches(ms, |ms| - 1, tail);
    assert ms[|ms|..] == [];
  }

  // ---------- what is left behind ----------

  /** No macro occurs anywhere in `s`. */
  ghost predicate NoMacro(s: string, ms: seq<Macro>) {
    forall j | 0 <= j < |ms| :: !Occurs(ms[j].name, s)
  }

  /** A macro that does not occur in `t` does not occur behind text that cannot produce it. */
  lemma {:induction false} NotBehind(v: string, t: string, name: string)
    requires Inert(v, name) && !Occurs(name, t)
    ensures !Occurs(name, v + t)
    decreases |v|
  {
    if v == "" {
      assert v + t == t;
    } else {
      InertHead(v, t, name);
      NotBehind(v[1..], t, name);
      assert (v + t)[1..] == v[1..] + t;
      OccursInTail(name, v + t);
    }
  }

  /** Replacing `m` removes it, and creates no macro that its value cannot produce. */
  lemma {:induction false} ReplaceCreatesNone(s: string, m: Macro, name: string)
    requires MacroName(m.name) && m.value != "" && m.value[0] == '/' && MacroName(name)
    requires Inert(m.value, name) && (name == m.name || !Occurs(name, s))
    ensures !Occurs(name, Replace(s, m))
    decreases |s|
  {
    if s == "" {
    } else if m.name <= s {
      var t := s[|m.name|..];
      if Occurs(name, t) { OccursBehind(m.name, t, name); }
      ReplaceCreatesNone(t, m, name);
      NotBehind(m.value, Replace(t, m), name);
    } else {
      OccursInTail(name, s);
      ReplaceCreatesNone(s[1..], m, name);
      ReplaceKeepsMatches(s, m, name);
      assert s[0..] == s;
      assert Replace(s, m)[1..] == Replace(s[1..], m);
      OccursInTail(name, Replace(s, m));
    }
  }

  lemma OccursBehind(v: string, t: string, name: string)
    requires v <= v + t && Occurs(name, t)
    ensures Occurs(name, v + t)
  {
    var k :| 0 <= k <= |t| && name <= t[k..];
    assert (v + t)[|v| + k..] == t[k..];
  }

  /** Replacing another macro leaves every occurrence of `name` in place. */
  lemma {:induction false} ReplaceKeepsOccurrences(s: string, m: Macro, name: string)
    requires MacroName(m.name) && m.value != "" && m.value[0] == '/' && MacroName(name)
    requires !(m.name <= name) && !(name <= m.name) && Occurs(name, s)
    ensures Occurs(name, Replace(s, m))
    decreases |s|
  {
    if m.name <= s {
      var t := s[|m.name|..];
      assert s == m.name + t;
      OccursAfter(m.name, t, name);
      ReplaceKeepsOccurrences(t, m, name);
      OccursBehind(m.value, Replace(t, m), name);
    } else {
      var r := Replace(s, m);
      ReplaceKeepsMatches(s, m, name);
      if name <= s {
        assert r[0..] == r;
      } else {
        OccursInTail(name, s);
        ReplaceKeepsOccurrences(s[1..], m, name);
        assert r == [s[0]] + Replace(s[1..], m);
        OccursBehind([s[0]], Replace(s[1..], m), name);
      }
    }
  }

  /** Occurrences of different macros do not overlap. */
  lemma OccursAfter(other: string, t: string, name: string)
    requires MacroName(other) && MacroName(name) && !(other <= name) && !(name <= other) && Occurs(name, other + t)
    ensures Occurs(name, t)
  {
    var s := other + t;
    var k :| 0 <= k <= |s| && name <= s[k..];
    assert s[k..][0] == s[k] == '$';
    if k == 0 { PrefixesComparable(name, other, s); }
    assert s[k..] == t[k - |other|..];
  }

  lemma {:induction false} ExpandStaysClear(s: string, ms: seq<Macro>, name: string)
    requires WellFormed(ms) && MacroName(name) && !Occurs(name, s)
    requires forall i | 0 <= i < |ms| :: Inert(ms[i].value, name)
    ensures !Occurs(name, Expand(s, ms))
    decreases |ms|
  {
    if ms != [] {
      ReplaceCreatesNone(s, ms[0], name);
      Tail(ms);
      assert forall i | 0 <= i < |ms[1..]| :: ms[1..][i] == ms[i + 1];
      ExpandStaysClear(Replace(s, ms[0]), ms[1..], name);
    }
  }

  lemma {:induction false} ExpandKeepsOccurrences(s: string, ms: seq<Macro>, name: string)
    requires WellFormed(ms) && MacroName(name) && Occurs(name, s)
    requires forall i | 0 <= i < |ms| :: !(ms[i].name <= name) && !(name <= ms[i].name)
    ensures Occurs(name, Expand(s, ms))
    decreases |ms|
  {
    if ms != [] {
      ReplaceKeepsOccurrences(s, ms[0], name);
      Tail(ms);
      assert forall i | 0 <= i < |ms[1..]| :: ms[1..][i] == ms[i + 1];
      ExpandKeepsOccurrences(Replace(s, ms[0]), ms[1..], name);
    }
  }

  lemma FinalTail(ms: seq<Macro>)
    requires WellFormed(ms) && Final(ms) && ms != []
    ensures WellFormed(ms[1..]) && Final(ms[1..])
    ensures forall i | 0 <= i < |ms[1..]| :: ms[1..][i] == ms[i + 1] && Inert(ms[1..][i].value, ms[0].name)
  {
    Tail(ms);
  }

  lemma {:induction false} ExpandRemoves(s: string, ms: seq<Macro>, j: nat)
    requires WellFormed(ms) && Final(ms) && j < |ms|
    ensures !Occurs(ms[j].name, Expand(s, ms))
    decreases j
  {
    FinalTail(ms);
    if j == 0 {
      ReplaceCreatesNone(s, ms[0], ms[0].name);
      ExpandStaysClear(Replace(s, ms[0]), ms[1..], ms[0].name);
    } else {
      ExpandRemoves(Replace(s, ms[0]), ms[1..], j - 1);
    }
  }

  lemma ExpandLeavesNoMacro(s: string, ms: seq<Macro>)
    requires WellFormed(ms) && Final(ms)
    ensures NoMacro(Expand(s, ms), ms)
  {
    forall j | 0 <= j < |ms| ensures !Occurs(ms[j].name, Expand(s, ms)) { ExpandRemoves(s, ms, j); }
  }

  /** What a value produces after its macro's turn stays if the produced macro had its turn before. */
  lemma ProducedStays(ms: seq<Macro>, i: nat, j: nat) returns (s: string)
    requires WellFormed(ms) && j <= i < |ms| && !Inert(ms[i].value, ms[j].name)
    ensures Occurs(ms[j].name, Expand(s, ms))
  {
    var value, other := ms[i].value, ms[j].name;
    var k :| 0 <= k < |value| && (other <= value[k..] || value[k..] <= other);
    var tail := if |value| - k < |other| then other[|value| - k..] else "";
    s := ms[i].name + tail;
    TrapOccurs(value, other, k);
    ExpandReaches(ms, i, tail);
    WellFormedSuffix(ms, i + 1);
    var rest := ms[i + 1..];
    forall l | 0 <= l < |rest|
      ensures !(rest[l].name <= other) && !(other <= rest[l].name)
    {
      assert rest[l] == ms[i + 1 + l];
    }
    ExpandKeepsOccurrences(value + tail, rest, other);
  }

  /** No macro is left behind, on any text, if and only if no value can produce its own macro or one that was
      replaced before. */
  lemma ExpandLeavesNoMacroIff(ms: seq<Macro>)
    requires WellFormed(ms)
    ensures (forall s :: NoMacro(Expand(s, ms), ms)) <==> Final(ms)
  {
    if Final(ms) {
      forall s ensures NoMacro(Expand(s, ms), ms) { ExpandLeavesNoMacro(s, ms); }
    } else {
      var i, j :| 0 <= j <= i < |ms| && !Inert(ms[i].value, ms[j].name);
      var s := ProducedStays(ms, i, j);
      assert !NoMacro(Expand(s, ms), ms);
    }
  }

  // ---------- the launcher's macros on Linux ----------

  function LinuxMacros(userHome: string, ideHome: string, caches: string): seq<Macro> {
    [Macro(USER_HOME_MACRO, userHome), Macro(IDE_HOME_MACRO, ideHome), Macro(IDE_CACHE_DIR_MACRO, caches)]
  }

  lemma LinuxMacrosAreWellFormed(userHome: string, ideHome: string, caches: string)
    requires userHome != "" && ideHome != "" && caches != "" && userHome[0] == ideHome[0] == caches[0] == '/'
    ensures WellFormed(LinuxMacros(userHome, ideHome, caches))
  {
    assert USER_HOME_MACRO[1] == 'U' && IDE_HOME_MACRO[1] == 'I' && IDE_CACHE_DIR_MACRO[1] == 'I';
    assert IDE_HOME_MACRO[5] == 'H' && IDE_CACHE_DIR_MACRO[5] == 'C';
  }

  lemma LinuxExpansion(s: string, userHome: string, ideHome: string, caches: string, order: seq<Macro>)
    requires SafeValue(userHome) && SafeValue(ideHome) && SafeValue(caches)
    requires SafeMacros(order) && forall m :: m in order <==> m in LinuxMacros(userHome, ideHome, caches)
    ensures var ms := LinuxMacros(userHome, ideHome, caches);
      && SafeMacros(ms)
      && Expand(s, ms) == Simultaneous(s, ms)
      && Expand(s, ms) == Expand(s, order)
      && NoMacro(Expand(s, ms), ms)
  {
    var ms := LinuxMacros(userHome, ideHome, caches);
    LinuxMacrosAreWellFormed(userHome, ideHome, caches);
    SafeIsSeparate(ms);
    SafeIsSeparate(order);
    ExpandIsSimultaneous(s, ms);
    ExpandIsSimultaneous(s, order);
    SimultaneousIgnoresOrder(s, ms, order);
    ExpandLeavesNoMacro(s, ms);
  }

  /** For absolute paths, what has to be checked: the macros replaced later against the paths put in earlier. */
  lemma LinuxExpansionIff(userHome: string, ideHome: string, caches: string)
    requires userHome != "" && ideHome != "" && caches != "" && userHome[0] == ideHome[0] == caches[0] == '/'
    ensures var ms := LinuxMacros(userHome, ideHome, caches);
      && WellFormed(ms)
      && ((forall s :: Expand(s, ms) == Simultaneous(s, ms)) <==>
            && Inert(userHome, IDE_HOME_MACRO) && Inert(userHome, IDE_CACHE_DIR_MACRO)
            && Inert(ideHome, IDE_CACHE_DIR_MACRO))
      && ((forall s :: NoMacro(Expand(s, ms), ms)) <==>
            && Inert(userHome, USER_HOME_MACRO) && Inert(ideHome, USER_HOME_MACRO) && Inert(caches, USER_HOME_MACRO)
            && Inert(ideHome, IDE_HOME_MACRO) && Inert(caches, IDE_HOME_MACRO) && Inert(caches, IDE_CACHE_DIR_MACRO))
  {
    var ms := LinuxMacros(userHome, ideHome, caches);
    LinuxMacrosAreWellFormed(userHome, ideHome, caches);
    ExpandIsSimultaneousIff(ms);
    ExpandLeavesNoMacroIff(ms);
    assert Final(ms) <==>
      && Inert(ms[0].value, ms[0].name) && Inert(ms[1].value, ms[0].name) && Inert(ms[2].value, ms[0].name)
      && Inert(ms[1].value, ms[1].name) && Inert(ms[2].value, ms[1].name) && Inert(ms[2].value, ms[2].name);
    assert Ordered(ms) <==>
      Inert(ms[0].value, ms[1].name) && Inert(ms[0].value, ms[2].name) && Inert(ms[1].value, ms[2].name);
  }

  lemma ExpandThree(s: string, a: Macro, b: Macro, c: Macro)
    requires a.name != "" && b.name != "" && c.name != ""
    ensures Expand(s, [a, b, c]) == Replace(Replace(Replace(s, a), b), c)
  {
    var ms := [a, b, c];
    assert ms[1..] == [b, c] && [b, c][1..] == [c] && [c][1..] == [];
    var t := Replace(s, a);
    var u := Replace(t, b);
    assert Expand(Replace(u, c), []) == Replace(u, c);
    assert Expand(u, [c]) == Replace(u, c);
    assert Expand(t, [b, c]) == Expand(u, [c]);
  }

  lemma ReplaceAlone(v: string, m: Macro)
    requires MacroName(m.name) && Inert(v, m.name)
    ensures Replace(v + m.name, m) == v + m.value && Replace(v, m) == v
  {
    assert m.name[|m.name|..] == "" && m.name + "" == m.name && m.value + "" == m.value && v + "" == v;
    ReplaceSkips(v, m.name, m);
    ReplaceSkips(v, "", m);
  }

  lemma ReplaceOther(v: string, ms: seq<Macro>, i: nat, j: nat)
    requires WellFormed(ms) && i < |ms| && j < |ms| && i != j && Inert(v, ms[j].name)
    ensures Replace(v + ms[i].name, ms[j]) == v + ms[i].name
  {
    assert ms[i].name + "" == ms[i].name;
    OnlyOwnName(ms, i, "", j);
    ReplaceLowers(ms[i].name, ms[j]);
    ReplaceSkips(v, ms[i].name, ms[j]);
  }

  /** A value that ends with another macro: what becomes of it depends on the order. */
  lemma ValueIsExpandedAgain(a: Macro, b: Macro, c: Macro)
    requires MacroName(a.name) && MacroName(b.name) && MacroName(c.name)
    requires WellFormed([a, b, c]) && a.value == "/" + b.name && DollarFree(b.value)
    ensures Expand(a.name, [a, b, c]) == "/" + b.value
    ensures Expand(a.name, [b, a, c]) == a.value == Simultaneous(a.name, [a, b, c])
  {
    var ms := [a, b, c];
    assert "" + a.name == a.name && ms[0] == a && ms[1] == b && ms[2] == c;
    ExpandThree(a.name, a, b, c);
    ExpandThree(a.name, b, a, c);
    DollarFreeIsInert("/", b.name);
    DollarFreeIsInert("/", c.name);
    DollarFreeIsInert("/" + b.value, c.name);
    ReplaceAlone("", a);
    ReplaceAlone("/", b);
    ReplaceAlone("/" + b.value, c);
    ReplaceOther("", ms, 0, 1);
    ReplaceOther("/", ms, 1, 2);
    SimultaneousReaches(ms, 0, "");
    assert a.name + "" == a.name && a.value + "" == a.value;
  }

  /** A dollar sign in a substituted path can break expansion. */
  lemma DollarBreaksExpansion()
    ensures var user, ide, cache :=
      Macro(USER_HOME_MACRO, "/" + IDE_HOME_MACRO), Macro(IDE_HOME_MACRO, "/i"), Macro(IDE_CACHE_DIR_MACRO, "/c");
      && LinuxMacros(user.value, ide.value, cache.value) == [user, ide, cache]
      && Expand(USER_HOME_MACRO, [user, ide, cache]) == "//i"
      && Expand(USER_HOME_MACRO, [ide, user, cache]) == "/" + IDE_HOME_MACRO
      && Simultaneous(USER_HOME_MACRO, [user, ide, cache]) == "/" + IDE_HOME_MACRO
  {
    var user, ide, cache := Macro(USER_HOME_MACRO, "/" + IDE_HOME_MACRO), Macro(IDE_HOME_MACRO, "/i"),
      Macro(IDE_CACHE_DIR_MACRO, "/c");
    LinuxMacrosAreWellFormed(user.value, ide.value, cache.value);
    ValueIsExpandedAgain(user, ide, cache);
  }
}
