/** The launcher's VM options: reading the files, merging the layers, expanding the macros. */
module VmOptions {
  import opened Macros
  import opened Options

  datatype Result<+T> = Ok(value: T) | Err {
    predicate IsFailure() { Err? }
    function PropagateFailure<U>(): Result<U> requires Err? { Err }
    function Extract(): T requires Ok? { value }
  }

  /** A line is None when it cannot be decoded; the whole file is None when it cannot be opened. */
  type File = Option<seq<Option<string>>>

  datatype Read = Read(options: seq<string>, corrupted: bool)

  /** What `DefaultLaunchConfiguration` knows; `userFile` is None when no user file was found. */
  datatype Config = Config(
    errorFiles: seq<string>,
    distFile: File,
    distPath: string,
    userFile: Option<(string, File)>,
    product: seq<string>,
    macros: seq<Macro>)

  const FILE_PROPERTY: string := "-Djb.vmOptionsFile="
  const CORRUPTED_OPTION: string := "-Djb.vmOptionsFile.corrupted=true"
  const LAUNCHER_OPTION: string := "-Dide.native.launcher=true"
  const GC_PREFIX: string := "-XX:+"
  const GC_SUFFIX: string := "GC"
  const INITIAL_RAM: string := "-XX:InitialRAMPercentage="
  const MIN_RAM: string := "-XX:MinRAMPercentage="
  const MAX_RAM: string := "-XX:MaxRAMPercentage="
  const XMS: string := "-Xms"
  const XMX: string := "-Xmx"

  // ---------- read_vm_options ----------

  /** White space in the sense of Unicode, which `str::trim` removes at both ends. */
  predicate IsSpace(c: char) {
    var n := c as int;
    || 9 <= n <= 13 || n == 32 || n == 0x85 || n == 0xA0 || n == 0x1680 || 0x2000 <= n <= 0x200A
    || n == 0x2028 || n == 0x2029 || n == 0x202F || n == 0x205F || n == 0x3000
  }

  function Trim(s: string): (r: string)
    ensures r != "" ==> !IsSpace(r[0]) && !IsSpace(r[|r| - 1])
    decreases |s|
  {
    if s == "" then ""
    else if IsSpace(s[0]) then Trim(s[1..])
    else if IsSpace(s[|s| - 1]) then Trim(s[..|s| - 1])
    else s
  }

  predicate IsOption(line: string) {
    line != "" && line[0] != '#'
  }

  predicate Readable(line: Option<string>) {
    line.Some? && (IsOption(Trim(line.value)) ==> '\0' !in Trim(line.value))
  }

  /** The options among the lines, in order. */
  function OptionsOf(lines: seq<Option<string>>): seq<string> {
    if lines == [] then []
    else
      var last := lines[|lines| - 1];
      OptionsOf(lines[..|lines| - 1]) + if last.Some? && IsOption(Trim(last.value)) then [Trim(last.value)] else []
  }

  function FirstUnreadable(lines: seq<Option<string>>): (k: nat)
    ensures k <= |lines| && (k < |lines| ==> !Readable(lines[k]))
    ensures forall j | 0 <= j < k :: Readable(lines[j])
  {
    if lines == [] || !Readable(lines[0]) then 0 else 1 + FirstUnreadable(lines[1..])
  }

  /** The first line that is not readable decides: an undecodable one fails, a NUL voids the whole file. */
  function ReadSpec(file: File): Result<Read> {
    match file
    case None => Err
    case Some(lines) =>
      var k := FirstUnreadable(lines);
      if k == |lines| then Ok(Read(OptionsOf(lines), false))
      else if lines[k].None? then Err
      else Ok(Read([], true))
  }

  method ReadVmOptions(file: File) returns (r: Result<Read>)
    ensures r == ReadSpec(file)
  {
    if file == None { return Err; }
    var lines := file.value;
    var vmOptions: seq<string> := [];
    for i := 0 to |lines|
      invariant forall j | 0 <= j < i :: Readable(lines[j])
      invariant vmOptions == OptionsOf(lines[..i])
    {
      assert lines[..i + 1][..i] == lines[..i];
      if lines[i] == None { return Err; }
      var line := Trim(lines[i].value);
      if line == "" || line[0] == '#' { continue; }
      if '\0' in line { return Ok(Read([], true)); }
      vmOptions := vmOptions + [line];
    }
    assert lines[..|lines|] == lines;
    r := Ok(Read(vmOptions, false));
  }

  // ---------- collect_vm_options_from_files ----------

  predicate StartsWith(s: string, prefix: string) {
    prefix <= s
  }

  predicate EndsWith(s: string, suffix: string) {
    |suffix| <= |s| && s[|s| - |suffix|..] == suffix
  }

  predicate IsGc(line: string) {
    StartsWith(line, GC_PREFIX) && EndsWith(line, GC_SUFFIX)
  }

  /** The user's line `u` makes the distribution's line `l` go. */
  predicate Overrides(u: string, l: string) {
    || (IsGc(u) && IsGc(l))
    || (StartsWith(u, INITIAL_RAM) && StartsWith(l, XMS))
    || ((StartsWith(u, MIN_RAM) || StartsWith(u, MAX_RAM)) && StartsWith(l, XMX))
  }

  predicate Overridden(user: seq<string>, l: string) {
    exists i :: 0 <= i < |user| && Overrides(user[i], l)
  }

  /** The distribution's options that no user line overrides, in order. */
  function Surviving(dist: seq<string>, user: seq<string>): seq<string> {
    if dist == [] then []
    else Surviving(dist[..|dist| - 1], user) + if Overridden(user, dist[|dist| - 1]) then [] else [dist[|dist| - 1]]
  }

  function UserRead(c: Config): Result<(Read, string)> {
    match c.userFile
    case None => Ok((Read([], false), c.distPath))
    case Some((path, file)) =>
      var read :- ReadSpec(file);
      Ok((read, path))
  }

  /** The launcher's record of the file that was, or could have been, the user's. */
  function FileProperties(path: string, corrupted: bool): seq<string> {
    [FILE_PROPERTY + path] + if corrupted then [CORRUPTED_OPTION] else []
  }

  datatype Layers = Layers(dist: seq<string>, user: seq<string>, files: seq<string>)

  function FileLayers(c: Config): Result<Layers> {
    var dist :- ReadSpec(c.distFile);
    if dist.corrupted then Err
    else
      var user :- UserRead(c);
      Ok(Layers(Surviving(dist.options, user.0.options), user.0.options, FileProperties(user.1, user.0.corrupted)))
  }

  /** The options from the files, on top of `before`. */
  function Collected(c: Config, before: seq<string>): Result<seq<string>> {
    var layers :- FileLayers(c);
    Ok(before + layers.dist + layers.user + layers.files)
  }

  function Assembled(c: Config): Result<seq<string>>
    requires forall i | 0 <= i < |c.macros| :: c.macros[i].name != ""
  {
    var files :- Collected(c, c.errorFiles);
    Ok(ExpandAll(files + c.product, c.macros) + [LAUNCHER_OPTION])
  }

  function ExpandAll(options: seq<string>, ms: seq<Macro>): (r: seq<string>)
    requires forall i | 0 <= i < |ms| :: ms[i].name != ""
    ensures |r| == |options| && forall i | 0 <= i < |r| :: r[i] == Expand(options[i], ms)
  {
    seq(|options|, i requires 0 <= i < |options| => Expand(options[i], ms))
  }

  ghost predicate Caught(filters: seq<string -> bool>, l: string) {
    exists j :: 0 <= j < |filters| && filters[j](l)
  }

  lemma CaughtByOneMore(filters: seq<string -> bool>, f: string -> bool, l: string)
    ensures Caught(filters + [f], l) <==> Caught(filters, l) || f(l)
  {
    if Caught(filters, l) {
      var j :| 0 <= j < |filters| && filters[j](l);
      assert (filters + [f])[j](l);
    }
    if f(l) { assert (filters + [f])[|filters|](l); }
  }

  lemma OverriddenByOneMore(user: seq<string>, i: nat, l: string)
    requires i < |user|
    ensures Overridden(user[..i + 1], l) <==> Overridden(user[..i], l) || Overrides(user[i], l)
  {
    var all := user[..i + 1];
    assert all[i] == user[i] && forall j | 0 <= j < i :: all[j] == user[..i][j];
  }

  /** The filters of the user's options catch exactly the lines that some user line overrides. */
  method FiltersOf(user: seq<string>) returns (filters: seq<string -> bool>)
    ensures forall l :: Caught(filters, l) <==> Overridden(user, l)
  {
    filters := [];
    for i := 0 to |user|
      invariant forall l :: Caught(filters, l) <==> Overridden(user[..i], l)
    {
      filters := AddFilters(filters, user[i]);
      forall l ensures Caught(filters, l) <==> Overridden(user[..i + 1], l) { OverriddenByOneMore(user, i, l); }
    }
    assert user[..|user|] == user;
  }

  method AddFilters(before: seq<string -> bool>, line: string) returns (filters: seq<string -> bool>)
    ensures forall l :: Caught(filters, l) <==> Caught(before, l) || Overrides(line, l)
  {
    filters := before;
    if StartsWith(line, GC_PREFIX) && EndsWith(line, GC_SUFFIX) {
      filters := Push(filters, l => StartsWith(l, GC_PREFIX) && EndsWith(l, GC_SUFFIX));
    }
    if StartsWith(line, INITIAL_RAM) {
      filters := Push(filters, l => StartsWith(l, XMS));
    }
    if StartsWith(line, MIN_RAM) || StartsWith(line, MAX_RAM) {
      filters := Push(filters, l => StartsWith(l, XMX));
    }
  }

  method Push(before: seq<string -> bool>, f: string -> bool) returns (filters: seq<string -> bool>)
    ensures forall l :: Caught(filters, l) <==> Caught(before, l) || f(l)
  {
    filters := before + [f];
    forall l ensures Caught(filters, l) <==> Caught(before, l) || f(l) { CaughtByOneMore(before, f, l); }
  }

  method AnyFilter(filters: seq<string -> bool>, l: string) returns (caught: bool)
    ensures caught == Caught(filters, l)
  {
    for j := 0 to |filters|
      invariant forall k | 0 <= k < j :: !filters[k](l)
    {
      if filters[j](l) { return true; }
    }
    caught := false;
  }

  method KeepUncaught(dist: seq<string>, filters: seq<string -> bool>, ghost user: seq<string>)
    returns (kept: seq<string>)
    requires forall l :: Caught(filters, l) <==> Overridden(user, l)
    ensures kept == Surviving(dist, user)
  {
    kept := [];
    for i := 0 to |dist|
      invariant kept == Surviving(dist[..i], user)
    {
      assert dist[..i + 1][..i] == dist[..i];
      var caught := AnyFilter(filters, dist[i]);
      if !caught { kept := kept + [dist[i]]; }
    }
    assert dist[..|dist|] == dist;
  }

  method CollectVmOptionsFromFiles(c: Config, before: seq<string>) returns (r: Result<seq<string>>)
    ensures r == Collected(c, before)
  {
    var dist := ReadVmOptions(c.distFile);
    if dist.Err? || dist.value.corrupted { return Err; }
    var user, path := Read([], false), c.distPath;
    if c.userFile.Some? {
      var read := ReadVmOptions(c.userFile.value.1);
      if read.Err? { return Err; }
      user, path := read.value, c.userFile.value.0;
    }
    var filters := FiltersOf(user.options);
    var kept := KeepUncaught(dist.value.options, filters, user.options);
    var vmOptions := before + kept + user.options;
    ghost var merged := vmOptions;
    vmOptions := vmOptions + [FILE_PROPERTY + path];
    if user.corrupted { vmOptions := vmOptions + [CORRUPTED_OPTION]; }
    assert vmOptions == merged + FileProperties(path, user.corrupted);
    r := Ok(vmOptions);
  }

  method GetVmOptions(c: Config) returns (r: Result<seq<string>>)
    requires forall i | 0 <= i < |c.macros| :: c.macros[i].name != ""
    ensures r == Assembled(c)
  {
    var collected := CollectVmOptionsFromFiles(c, c.errorFiles);
    if collected.Err? { return Err; }
    var vmOptions := collected.value + c.product;
    ghost var raw := vmOptions;
    for i := 0 to |vmOptions|
      invariant |vmOptions| == |raw|
      invariant forall j | 0 <= j < i :: vmOptions[j] == Expand(raw[j], c.macros)
      invariant forall j | i <= j < |raw| :: vmOptions[j] == raw[j]
    {
      vmOptions := vmOptions[i := Expand(vmOptions[i], c.macros)];
    }
    assert vmOptions == ExpandAll(raw, c.macros);
    r := Ok(vmOptions + [LAUNCHER_OPTION]);
  }

  // ---------- what the merge promises ----------

  /** The JVM takes the last option that sets `key`; `keyOf` says what an option sets. */
  function LastSetting<K(==)>(options: seq<string>, keyOf: string -> Option<K>, key: K): Option<string> {
    if options == [] then None
    else
      var last := options[|options| - 1];
      if keyOf(last) == Some(key) then Some(last) else LastSetting(options[..|options| - 1], keyOf, key)
  }

  function OrElse(a: Option<string>, b: Option<string>): Option<string> {
    if a.Some? then a else b
  }

  lemma {:induction false} LastOfTwo<K>(a: seq<string>, b: seq<string>, keyOf: string -> Option<K>, key: K)
    ensures LastSetting(a + b, keyOf, key) == OrElse(LastSetting(b, keyOf, key), LastSetting(a, keyOf, key))
  {
    if b == [] {
      assert a + b == a;
    } else {
      assert (a + b)[..|a + b| - 1] == a + b[..|b| - 1];
      LastOfTwo(a, b[..|b| - 1], keyOf, key);
    }
  }

  lemma ExpandAllConcat(a: seq<string>, b: seq<string>, ms: seq<Macro>)
    requires forall i | 0 <= i < |ms| :: ms[i].name != ""
    ensures ExpandAll(a + b, ms) == ExpandAll(a, ms) + ExpandAll(b, ms)
  {
  }

  /** Whatever options the JVM distinguishes: the launcher's own option beats product options, which beat
      the file properties, then user options, then surviving distribution options, then error files. */
  lemma LaterLayersWin<K>(c: Config, keyOf: string -> Option<K>, key: K)
    requires forall i | 0 <= i < |c.macros| :: c.macros[i].name != ""
    requires Assembled(c).Ok?
    ensures FileLayers(c).Ok?
    ensures var layers := FileLayers(c).value;
      LastSetting(Assembled(c).value, keyOf, key) ==
        OrElse(LastSetting([LAUNCHER_OPTION], keyOf, key),
        OrElse(LastSetting(ExpandAll(c.product, c.macros), keyOf, key),
        OrElse(LastSetting(ExpandAll(layers.files, c.macros), keyOf, key),
        OrElse(LastSetting(ExpandAll(layers.user, c.macros), keyOf, key),
        OrElse(LastSetting(ExpandAll(layers.dist, c.macros), keyOf, key),
               LastSetting(ExpandAll(c.errorFiles, c.macros), keyOf, key))))))
  {
    var layers := FileLayers(c).value;
    LayersWin(c.errorFiles, layers.dist, layers.user, layers.files, c.product, LAUNCHER_OPTION, c.macros, keyOf, key);
  }

  lemma LayersWin<K>(a: seq<string>, b: seq<string>, u: seq<string>, f: seq<string>, p: seq<string>, last: string,
          ms: seq<Macro>, keyOf: string -> Option<K>, key: K)
    requires forall i | 0 <= i < |ms| :: ms[i].name != ""
    ensures LastSetting(ExpandAll(a + b + u + f + p, ms) + [last], keyOf, key) ==
        OrElse(LastSetting([last], keyOf, key),
        OrElse(LastSetting(ExpandAll(p, ms), keyOf, key),
        OrElse(LastSetting(ExpandAll(f, ms), keyOf, key),
        OrElse(LastSetting(ExpandAll(u, ms), keyOf, key),
        OrElse(LastSetting(ExpandAll(b, ms), keyOf, key),
               LastSetting(ExpandAll(a, ms), keyOf, key))))))
  {
    ExpandAllConcat(a, b, ms);
    ExpandAllConcat(a + b, u, ms);
    ExpandAllConcat(a + b + u, f, ms);
    ExpandAllConcat(a + b + u + f, p, ms);
    LastOfTwo(ExpandAll(a, ms), ExpandAll(b, ms), keyOf, key);
    LastOfTwo(ExpandAll(a + b, ms), ExpandAll(u, ms), keyOf, key);
    LastOfTwo(ExpandAll(a + b + u, ms), ExpandAll(f, ms), keyOf, key);
    LastOfTwo(ExpandAll(a + b + u + f, ms), ExpandAll(p, ms), keyOf, key);
    LastOfTwo(ExpandAll(a + b + u + f + p, ms), [last], keyOf, key);
  }

  /** A distribution option is dropped if and only if some user line overrides it. */
  lemma {:induction false} DroppedIff(dist: seq<string>, user: seq<string>, l: string)
    ensures multiset(Surviving(dist, user))[l] == if Overridden(user, l) then 0 else multiset(dist)[l]
  {
    if dist != [] {
      DroppedIff(dist[..|dist| - 1], user, l);
      assert dist == dist[..|dist| - 1] + [dist[|dist| - 1]];
    }
  }

  /** The order of the distribution's options is kept. */
  lemma {:induction false} SurvivingKeepsOrder(dist: seq<string>, more: seq<string>, user: seq<string>)
    ensures Surviving(dist + more, user) == Surviving(dist, user) + Surviving(more, user)
  {
    if more == [] {
      assert dist + more == dist;
    } else {
      assert (dist + more)[..|dist + more| - 1] == dist + more[..|more| - 1];
      SurvivingKeepsOrder(dist, more[..|more| - 1], user);
    }
  }

  /** Every option but the last is some layer's option with all macros replaced at once, and has none left. */
  lemma OptionsAreFullyExpanded(c: Config)
    requires SafeMacros(c.macros) && Assembled(c).Ok?
    ensures var layers := FileLayers(c).value;
      var all := c.errorFiles + layers.dist + layers.user + layers.files + c.product;
      && |Assembled(c).value| == |all| + 1
      && forall i | 0 <= i < |all| ::
           && Assembled(c).value[i] == Simultaneous(all[i], c.macros)
           && NoMacro(Assembled(c).value[i], c.macros)
  {
    var layers := FileLayers(c).value;
    var all := c.errorFiles + layers.dist + layers.user + layers.files + c.product;
    SafeIsSeparate(c.macros);
    forall i | 0 <= i < |all|
      ensures Expand(all[i], c.macros) == Simultaneous(all[i], c.macros) && NoMacro(Expand(all[i], c.macros), c.macros)
    {
      ExpandIsSimultaneous(all[i], c.macros);
      ExpandLeavesNoMacro(all[i], c.macros);
    }
  }

  /** The configuration on Linux: the first options are the crash files in the user's home directory. */
  function LinuxConfig(userHome: string, ideHome: string, caches: string, baseName: string,
          distFile: File, distPath: string, userFile: Option<(string, File)>, product: seq<string>): Config {
    Config(ErrorFiles(userHome, baseName), distFile, distPath, userFile, product,
      LinuxMacros(userHome, ideHome, caches))
  }

  function ErrorFiles(userHome: string, baseName: string): seq<string> {
    ["-XX:ErrorFile=" + userHome + "/java_error_in_" + baseName + "_%p.log",
     "-XX:HeapDumpPath=" + userHome + "/java_error_in_" + baseName + ".hprof"]
  }

  /** So on Linux, for absolute paths without a dollar sign: no option refers to a macro any more, and the
      first two name the crash files in the user's home directory, with the macros in its name replaced. */
  lemma LinuxOptionsAreFullyExpanded(userHome: string, ideHome: string, caches: string, baseName: string,
          distFile: File, distPath: string, userFile: Option<(string, File)>, product: seq<string>)
    requires SafeValue(userHome) && SafeValue(ideHome) && SafeValue(caches)
    requires Assembled(LinuxConfig(userHome, ideHome, caches, baseName, distFile, distPath, userFile, product)).Ok?
    ensures var c := LinuxConfig(userHome, ideHome, caches, baseName, distFile, distPath, userFile, product);
      var options := Assembled(c).value;
      var ms := LinuxMacros(userHome, ideHome, caches);
      && 2 < |options|
      && (forall i | 0 <= i < |options| - 1 :: NoMacro(options[i], ms))
      && (forall i | 0 <= i < 2 :: options[i] == Simultaneous(ErrorFiles(userHome, baseName)[i], ms))
  {
    var c := LinuxConfig(userHome, ideHome, caches, baseName, distFile, distPath, userFile, product);
    LinuxMacrosAreWellFormed(userHome, ideHome, caches);
    OptionsAreFullyExpanded(c);
    var layers := FileLayers(c).value;
    var all := c.errorFiles + layers.dist + layers.user + layers.files + c.product;
    assert all[0] == c.errorFiles[0] && all[1] == c.errorFiles[1];
  }

  // ---------- what is read, what overrides what, and when it fails ----------

  /** `r` is `s` from `i` to `j`; there is only white space before and after, and none at its ends. */
  ghost predicate TrimmedAt(s: string, r: string, i: nat, j: nat) {
    && i <= j <= |s| && r == s[i..j]
    && (forall k | 0 <= k < i || j <= k < |s| :: IsSpace(s[k]))
    && (r != "" ==> !IsSpace(r[0]) && !IsSpace(r[|r| - 1]))
  }

  lemma TrimmedAfterSpace(s: string, r: string, i: nat, j: nat)
    requires s != "" && IsSpace(s[0]) && TrimmedAt(s[1..], r, i, j)
    ensures TrimmedAt(s, r, i + 1, j + 1)
  {
    assert s[1..][i..j] == s[i + 1..j + 1];
    forall k | 1 <= k < i + 1 || j + 1 <= k < |s| ensures IsSpace(s[k]) { assert s[1..][k - 1] == s[k]; }
  }

  lemma TrimmedBeforeSpace(s: string, r: string, i: nat, j: nat)
    requires s != "" && IsSpace(s[|s| - 1]) && TrimmedAt(s[..|s| - 1], r, i, j)
    ensures TrimmedAt(s, r, i, j)
  {
    assert s[..|s| - 1][i..j] == s[i..j];
    forall k | 0 <= k < i || j <= k < |s| - 1 ensures IsSpace(s[k]) { assert s[..|s| - 1][k] == s[k]; }
  }

  /** Trimming takes away the white space at both ends, all of it and nothing else. */
  lemma {:induction false} TrimTakesSpace(s: string) returns (i: nat, j: nat)
    ensures TrimmedAt(s, Trim(s), i, j)
    decreases |s|
  {
    i, j := 0, |s|;
    if s == "" {
    } else if IsSpace(s[0]) {
      i, j := TrimTakesSpace(s[1..]);
      TrimmedAfterSpace(s, Trim(s), i, j);
      i, j := i + 1, j + 1;
    } else if IsSpace(s[|s| - 1]) {
      i, j := TrimTakesSpace(s[..|s| - 1]);
      TrimmedBeforeSpace(s, Trim(s), i, j);
    } else {
      assert s[0..|s|] == s;
    }
  }

  /** The options of a file are its trimmed lines that are neither empty nor comments. */
  lemma {:induction false} OptionsAreLines(lines: seq<Option<string>>, o: string)
    ensures o in OptionsOf(lines) <==>
      exists i :: 0 <= i < |lines| && lines[i].Some? && o == Trim(lines[i].value) && o != "" && o[0] != '#'
  {
    if lines != [] {
      OptionsAreLines(lines[..|lines| - 1], o);
      assert lines == lines[..|lines| - 1] + [lines[|lines| - 1]];
    }
  }

  /** What a line sets: the collector, or a heap size as a number or as a percentage of the memory. */
  datatype Setting = Collector | InitialSize | InitialPercentage | MaximalSize | MaximalPercentage | Other

  function Sets(line: string): Setting {
    if "-XX:+" <= line && |line| >= 2 && line[|line| - 2..] == "GC" then Collector
    else if "-XX:InitialRAMPercentage=" <= line then InitialPercentage
    else if "-XX:MinRAMPercentage=" <= line || "-XX:MaxRAMPercentage=" <= line then MaximalPercentage
    else if "-Xms" <= line then InitialSize
    else if "-Xmx" <= line then MaximalSize
    else Other
  }

  /** The user's choice of a collector overrides any other, and a percentage overrides the size that it replaces. */
  predicate Replaces(user: Setting, dist: Setting) {
    || (user == Collector && dist == Collector)
    || (user == InitialPercentage && dist == InitialSize)
    || (user == MaximalPercentage && dist == MaximalSize)
  }

  lemma PrefixesDiffer(line: string)
    ensures "-XX:+" <= line ==> line[2] == 'X' && line[4] == '+'
    ensures "-XX:InitialRAMPercentage=" <= line ==> line[2] == 'X' && line[4] == 'I'
    ensures "-XX:MinRAMPercentage=" <= line ==> line[2] == 'X' && line[4] == 'M' && line[5] == 'i'
    ensures "-XX:MaxRAMPercentage=" <= line ==> line[2] == 'X' && line[4] == 'M' && line[5] == 'a'
    ensures "-Xms" <= line ==> line[2] == 'm' && line[3] == 's'
    ensures "-Xmx" <= line ==> line[2] == 'm' && line[3] == 'x'
  {
  }

  /** A line sets at most one thing, and overrides what that replaces. */
  lemma OverridesIff(user: string, dist: string)
    ensures Overrides(user, dist) <==> Replaces(Sets(user), Sets(dist))
  {
    SetsOneThing(user);
    SetsOneThing(dist);
  }

  lemma SetsOneThing(line: string)
    ensures IsGc(line) <==> Sets(line) == Collector
    ensures StartsWith(line, INITIAL_RAM) <==> Sets(line) == InitialPercentage
    ensures StartsWith(line, MIN_RAM) || StartsWith(line, MAX_RAM) <==> Sets(line) == MaximalPercentage
    ensures StartsWith(line, XMS) <==> Sets(line) == InitialSize
    ensures StartsWith(line, XMX) <==> Sets(line) == MaximalSize
  {
    PrefixesDiffer(line);
  }

  /** The first line that is not readable is one that cannot be decoded, or there is no file. */
  ghost predicate Fails(file: File) {
    file == None || exists k ::
      0 <= k < |file.value| && file.value[k] == None && forall j | 0 <= j < k :: Readable(file.value[j])
  }

  /** The first line that is not readable is an option that contains a NUL. */
  ghost predicate Voids(file: File) {
    file != None && exists k ::
      0 <= k < |file.value| && file.value[k] != None && !Readable(file.value[k])
        && forall j | 0 <= j < k :: Readable(file.value[j])
  }

  lemma ReadIs(file: File)
    ensures ReadSpec(file) == Err <==> Fails(file)
    ensures ReadSpec(file) == Ok(Read([], true)) <==> Voids(file)
    ensures !Fails(file) && !Voids(file) ==>
      file != None && ReadSpec(file) == Ok(Read(OptionsOf(file.value), false))
        && forall line | line in file.value :: Readable(line)
  {
    if file.Some? {
      var k := FirstUnreadable(file.value);
      assert forall j | 0 <= j < |file.value| && !Readable(file.value[j]) :: k <= j;
    }
  }

  /** Assembling fails if and only if the distribution's file cannot be read or is void, or the user has a file that
      cannot be read. A void user file only counts as empty, and is marked. */
  lemma AssemblingFailsIff(c: Config)
    requires forall i | 0 <= i < |c.macros| :: c.macros[i].name != ""
    ensures Assembled(c) == Err <==>
      Fails(c.distFile) || Voids(c.distFile) || (c.userFile.Some? && Fails(c.userFile.value.1))
    ensures Assembled(c).Ok? && c.userFile.Some? ==>
      var layers := FileLayers(c).value;
      if Voids(c.userFile.value.1)
      then layers.user == [] && layers.files == [FILE_PROPERTY + c.userFile.value.0, CORRUPTED_OPTION]
      else layers.user == OptionsOf(c.userFile.value.1.value) && layers.files == [FILE_PROPERTY + c.userFile.value.0]
    ensures Assembled(c).Ok? && c.userFile == None ==>
      FileLayers(c).value.user == [] && FileLayers(c).value.files == [FILE_PROPERTY + c.distPath]
  {
    ReadIs(c.distFile);
    if c.userFile.Some? { ReadIs(c.userFile.value.1); }
  }
}
