/** The restarter's command line: `<pid> (n_args args ...)+`. */
module Restarter {
  import opened Options

  const USIZE: nat := 0x1_0000_0000_0000_0000

  // ---------- numbers ----------

  predicate Digits(s: string) {
    s != "" && forall i | 0 <= i < |s| :: '0' <= s[i] <= '9'
  }

  function Value(s: string): nat
    requires forall i | 0 <= i < |s| :: '0' <= s[i] <= '9'
  {
    if s == "" then 0 else 10 * Value(s[..|s| - 1]) + (s[|s| - 1] as int - '0' as int)
  }

  /** `str::parse::<usize>`: an optional plus sign and digits, below 2^64. */
  function ParseUsize(s: string): (r: Option<nat>)
    ensures r.Some? ==> r.value < USIZE
  {
    var digits := if s != "" && s[0] == '+' then s[1..] else s;
    if Digits(digits) && Value(digits) < USIZE then Some(Value(digits)) else None
  }

  /** `str::parse::<i32>` */
  function ParseI32(s: string): Option<int> {
    var signed := s != "" && (s[0] == '+' || s[0] == '-');
    var digits := if signed then s[1..] else s;
    if !Digits(digits) then None
    else
      var n: int := if signed && s[0] == '-' then -(Value(digits) as int) else Value(digits);
      if -0x8000_0000 <= n < 0x8000_0000 then Some(n) else None
  }

  function Decimal(n: nat): string {
    if n < 10 then [('0' as int + n) as char] else Decimal(n / 10) + [('0' as int + n % 10) as char]
  }

  lemma {:induction false} DecimalParses(n: nat)
    requires n < USIZE
    ensures Digits(Decimal(n)) && Value(Decimal(n)) == n && ParseUsize(Decimal(n)) == Some(n)
  {
    DecimalValue(n);
  }

  lemma {:induction false} DecimalValue(n: nat)
    ensures Digits(Decimal(n)) && Value(Decimal(n)) == n
  {
    var last := [('0' as int + n % 10) as char];
    if n < 10 {
      assert Value("") == 0 && Decimal(n)[..0] == "";
    } else {
      DecimalValue(n / 10);
      assert Decimal(n)[..|Decimal(n)| - 1] == Decimal(n / 10);
    }
  }

  /** A signed numeral, as shells and `Process` write a process id. */
  function SignedDecimal(n: int): string {
    if n < 0 then "-" + Decimal(-n) else Decimal(n)
  }

  /** Numerals parse to their value if it fits, with a plus sign or without. */
  lemma SignedDecimalParses(n: int)
    ensures ParseI32(SignedDecimal(n)) == if -0x8000_0000 <= n < 0x8000_0000 then Some(n) else None
    ensures 0 <= n ==> ParseI32("+" + Decimal(n)) == ParseI32(Decimal(n))
  {
    if n < 0 {
      DecimalValue(-n);
      SignedParses('-', Decimal(-n));
    } else {
      DecimalValue(n);
      SignedParses('+', Decimal(n));
      assert '0' <= Decimal(n)[0] <= '9';
    }
  }

  lemma SignedParses(sign: char, digits: string)
    requires (sign == '+' || sign == '-') && Digits(digits)
    ensures var n: int := if sign == '-' then -(Value(digits) as int) else Value(digits);
      ParseI32([sign] + digits) == if -0x8000_0000 <= n < 0x8000_0000 then Some(n) else None
  {
    assert ([sign] + digits)[1..] == digits;
  }

  /** And nothing else parses: there are digits, after at most one sign, and no other character. */
  lemma OnlyNumeralsParse(s: string)
    requires ParseI32(s).Some?
    ensures Digits(s) || (|s| > 1 && (s[0] == '+' || s[0] == '-') && Digits(s[1..]))
    ensures ParseI32(s).value < 0 ==> s[0] == '-'
  {
    if s[0] == '+' || s[0] == '-' { assert Digits(s[1..]); }
  }

  // ---------- the decoder ----------

  /** Panicked: the index sum at the bounds check does not fit a usize (a panic either there or when slicing). */
  datatype Parsed = Commands(commands: seq<seq<string>>) | Malformed | Panicked

  function Decode(args: seq<string>, i: nat, parse: string -> Option<nat>): Parsed
    requires i <= |args|
    decreases |args| - i
  {
    if i == |args| then Commands([])
    else
      match parse(args[i])
      case None => Malformed
      case Some(n) =>
        if n == 0 then Malformed
        else if i + n >= USIZE then Panicked
        else if i + n >= |args| then Malformed
        else Prepend([args[i + 1..i + 1 + n]], Decode(args, i + 1 + n, parse))
  }

  function Prepend(commands: seq<seq<string>>, p: Parsed): Parsed {
    if p.Commands? then Commands(commands + p.commands) else p
  }

  method ParseCommands(args: seq<string>, start: nat, parse: string -> Option<nat>) returns (r: Parsed)
    requires start <= |args|
    ensures r == Decode(args, start, parse)
  {
    var commands: seq<seq<string>> := [];
    ghost var goal := Decode(args, start, parse);
    var argIdx := start;
    while argIdx < |args|
      invariant start <= argIdx <= |args|
      invariant Prepend(commands, Decode(args, argIdx, parse)) == goal
      decreases |args| - argIdx
    {
      var argN := parse(args[argIdx]);
      if argN == None { return Malformed; }
      var n := argN.value;
      if n == 0 { return Malformed; }
      if argIdx + n >= USIZE { return Panicked; }
      if argIdx + n >= |args| { return Malformed; }
      ghost var before, tail := commands, Decode(args, argIdx + 1 + n, parse);
      argIdx := argIdx + 1;
      commands := commands + [args[argIdx..argIdx + n]];
      PrependTwice(before, [args[argIdx..argIdx + n]], tail);
      argIdx := argIdx + n;
    }
    r := Commands(commands);
  }

  lemma PrependTwice(a: seq<seq<string>>, b: seq<seq<string>>, p: Parsed)
    ensures Prepend(a, Prepend(b, p)) == Prepend(a + b, p)
  {
    if p.Commands? { assert a + (b + p.commands) == a + b + p.commands; }
  }

  // ---------- the encoding ----------

  /** `args` is the commands one after another, each after a header that parses to its length. */
  ghost predicate Tiles(args: seq<string>, commands: seq<seq<string>>, parse: string -> Option<nat>)
    decreases |commands|
  {
    if commands == [] then args == []
    else
      var n := |commands[0]|;
      && 1 <= n < |args|
      && parse(args[0]) == Some(n)
      && args[1..1 + n] == commands[0]
      && Tiles(args[1 + n..], commands[1..], parse)
  }

  function Encode(commands: seq<seq<string>>): seq<string> {
    if commands == [] then [] else [Decimal(|commands[0]|)] + commands[0] + Encode(commands[1..])
  }

  /** What the decoder produces tiles the arguments: no gap, no overlap, nothing left over. */
  lemma {:induction false} DecodedTiles(args: seq<string>, i: nat, parse: string -> Option<nat>)
    requires i <= |args| && Decode(args, i, parse).Commands?
    ensures Tiles(args[i..], Decode(args, i, parse).commands, parse)
    decreases |args| - i
  {
    if i < |args| {
      var n := parse(args[i]).value;
      DecodedTiles(args, i + 1 + n, parse);
      var rest, commands := args[i..], Decode(args, i, parse).commands;
      assert rest[1..1 + n] == args[i + 1..i + 1 + n] == commands[0];
      assert rest[1 + n..] == args[i + 1 + n..];
      assert commands[1..] == Decode(args, i + 1 + n, parse).commands;
    }
  }

  lemma DecodeStep(args: seq<string>, i: nat, n: nat, parse: string -> Option<nat>)
    requires 1 <= n && i + n < |args| < USIZE && parse(args[i]) == Some(n)
    ensures Decode(args, i, parse) == Prepend([args[i + 1..i + 1 + n]], Decode(args, i + 1 + n, parse))
  {
  }

  lemma {:induction false} TilingsDecode(args: seq<string>, i: nat, commands: seq<seq<string>>,
          parse: string -> Option<nat>)
    requires i <= |args| < USIZE && Tiles(args[i..], commands, parse)
    ensures Decode(args, i, parse) == Commands(commands)
    decreases |args| - i
  {
    if commands != [] {
      var n, rest := |commands[0]|, args[i..];
      assert rest[0] == args[i] && rest[1..1 + n] == args[i + 1..i + 1 + n];
      assert rest[1 + n..] == args[i + 1 + n..];
      TilingsDecode(args, i + 1 + n, commands[1..], parse);
      DecodeStep(args, i, n, parse);
      assert commands == [commands[0]] + commands[1..];
    }
  }

  /** The decoder succeeds exactly on the tilings. */
  lemma DecodesExactlyTilings(args: seq<string>, i: nat, commands: seq<seq<string>>, parse: string -> Option<nat>)
    requires i <= |args| < USIZE
    ensures Decode(args, i, parse) == Commands(commands) <==> Tiles(args[i..], commands, parse)
  {
    if Decode(args, i, parse) == Commands(commands) { DecodedTiles(args, i, parse); }
    if Tiles(args[i..], commands, parse) { TilingsDecode(args, i, commands, parse); }
  }

  lemma {:induction false} EncodeTiles(commands: seq<seq<string>>)
    requires forall i | 0 <= i < |commands| :: 1 <= |commands[i]| < USIZE
    ensures Tiles(Encode(commands), commands, ParseUsize)
  {
    if commands != [] {
      DecimalParses(|commands[0]|);
      EncodeTiles(commands[1..]);
      var n := |commands[0]|;
      assert Encode(commands)[1 + n..] == Encode(commands[1..]);
    }
  }

  /** Decoding inverts the encoding of any list of non-empty commands. */
  lemma DecodeInvertsEncode(program: string, pid: string, commands: seq<seq<string>>)
    requires forall i | 0 <= i < |commands| :: commands[i] != []
    requires 2 + |Encode(commands)| < USIZE
    ensures Decode([program, pid] + Encode(commands), 2, ParseUsize) == Commands(commands)
  {
    var args := [program, pid] + Encode(commands);
    CommandsAreShorter(commands);
    EncodeTiles(commands);
    assert args[2..] == Encode(commands);
    DecodesExactlyTilings(args, 2, commands, ParseUsize);
  }

  lemma {:induction false} CommandsAreShorter(commands: seq<seq<string>>)
    ensures forall i | 0 <= i < |commands| :: |commands[i]| <= |Encode(commands)|
  {
    if commands != [] {
      CommandsAreShorter(commands[1..]);
      forall i | 0 <= i < |commands| ensures |commands[i]| <= |Encode(commands)| {
        if 0 < i { assert commands[i] == commands[1..][i - 1]; }
      }
    }
  }

  // ---------- process_args ----------

  datatype Effect = Wait(pid: int) | Run(command: seq<string>) | Exec(command: seq<string>)

  /** How the process ends: an error return, a panic, or, after a successful exec, not at all. */
  datatype Outcome = Failed | Aborted | Replaced

  // `starts(k)` tells whether the program of command `k` can be started.

  /** `pid as u32 == process::id()` */
  predicate IsSelf(pid: int, self: nat) {
    pid % 0x1_0000_0000 == self
  }

  method ProcessArgs(args: seq<string>, self: nat, starts: nat -> bool) returns (effects: seq<Effect>, outcome: Outcome)
    requires 4 <= |args| < USIZE
    ensures var parsed := Decode(args, 2, ParseUsize);
      if ParseI32(args[1]) == None || IsSelf(ParseI32(args[1]).value, self) then effects == [] && outcome == Failed
      else if !parsed.Commands? then effects == [] && outcome == if parsed.Panicked? then Aborted else Failed
      else Executes(ParseI32(args[1]).value, parsed.commands, starts, effects, outcome)
  {
    effects := [];
    var pid := ParseI32(args[1]);
    if pid == None || IsSelf(pid.value, self) { return [], Failed; }
    var parsed := ParseCommands(args, 2, ParseUsize);
    if parsed.Malformed? { return [], Failed; }
    if parsed.Panicked? { return [], Aborted; }
    var commands := parsed.commands;
    SomeCommand(args);
    effects, outcome := RunCommands(pid.value, commands, starts);
  }

  /** The wait and the loop over the commands. */
  method RunCommands(pid: int, commands: seq<seq<string>>, starts: nat -> bool)
    returns (effects: seq<Effect>, outcome: Outcome)
    requires commands != []
    ensures Executes(pid, commands, starts, effects, outcome)
  {
    effects := [Wait(pid)];
    var lastIdx := |commands| - 1;
    for i := 0 to |commands|
      invariant i <= lastIdx
      invariant |effects| == i + 1 && effects[0] == Wait(pid)
      invariant forall k | 0 <= k < i :: starts(k) && effects[k + 1] == Run(commands[k])
    {
      if i != lastIdx {
        effects := effects + [Run(commands[i])];
        if !starts(i) { return effects, Failed; }
      } else {
        effects := effects + [Exec(commands[i])];
        return effects, if starts(i) then Replaced else Failed;
      }
    }
  }

  /** The wait comes first, then every command but the last is run in order and the last is exec-ed,
      up to the first that cannot be started; the process is replaced if all can. */
  ghost predicate Executes(pid: int, commands: seq<seq<string>>, starts: nat -> bool, effects: seq<Effect>,
          outcome: Outcome) {
    && 2 <= |effects| <= |commands| + 1
    && effects[0] == Wait(pid)
    && (forall k | 0 <= k < |effects| - 1 ::
          effects[k + 1] == if k == |commands| - 1 then Exec(commands[k]) else Run(commands[k]))
    && (forall k | 0 <= k < |effects| - 2 :: starts(k))
    && (outcome == Replaced <==> |effects| == |commands| + 1 && starts(|commands| - 1))
    && (outcome == Failed <==> !starts(|effects| - 2))
  }

  lemma SomeCommand(args: seq<string>)
    requires 3 <= |args| && Decode(args, 2, ParseUsize).Commands?
    ensures Decode(args, 2, ParseUsize).commands != []
  {
  }
}
