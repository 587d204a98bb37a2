/** What the program writes to standard output. */
module Protocol {
  import opened Options
  import opened Posix

  datatype Tag = CREATE | CHANGE | STATS | DELETE

  datatype Output =
    | Report(tag: Tag, path: string)
    | LimitMessage
    | Reset
    | Unwatchable(lines: seq<string>)

  function TagText(tag: Tag): string {
    match tag
    case CREATE => "CREATE"
    case CHANGE => "CHANGE"
    case STATS => "STATS"
    case DELETE => "DELETE"
  }

  /** A newline inside a path is sent as NUL. */
  function Escape(path: string): (r: string)
    ensures |r| == |path|
    ensures forall i | 0 <= i < |path| :: r[i] == if path[i] == '\n' then NUL else path[i]
  {
    seq(|path|, i requires 0 <= i < |path| => if path[i] == '\n' then NUL else path[i])
  }

  function Lines(lines: seq<string>): string {
    if lines == [] then "" else lines[0] + "\n" + Lines(lines[1..])
  }

  function Render(o: Output): string {
    match o
    case Report(tag, path) => TagText(tag) + "\n" + Escape(path) + "\n"
    case LimitMessage => "MESSAGE\ninotify.watch.limit\n"
    case Reset => "RESET\n"
    case Unwatchable(lines) => "UNWATCHEABLE\n" + Lines(lines) + "#\n"
  }

  function RenderAll(out: seq<Output>): string {
    if out == [] then "" else RenderAll(out[..|out| - 1]) + Render(out[|out| - 1])
  }

  // ---------- reading the output back ----------

  function Unescape(line: string): string {
    seq(|line|, i requires 0 <= i < |line| => if line[i] == NUL then '\n' else line[i])
  }

  /** The index of the first newline, or the length. */
  function LineEnd(text: string): (k: nat)
    ensures k <= |text| && (k < |text| ==> text[k] == '\n')
    ensures forall i | 0 <= i < k :: text[i] != '\n'
  {
    if text == "" || text[0] == '\n' then 0 else 1 + LineEnd(text[1..])
  }

  function ParseTag(line: string): Option<Tag> {
    if line == "CREATE" then Some(CREATE)
    else if line == "CHANGE" then Some(CHANGE)
    else if line == "STATS" then Some(STATS)
    else if line == "DELETE" then Some(DELETE)
    else None
  }

  /** The first line and the text after it; None if there is no newline. */
  function TakeLine(text: string): (r: Option<(string, string)>)
    ensures r.Some? ==> |r.value.1| < |text| && '\n' !in r.value.0
  {
    var k := LineEnd(text);
    if k == |text| then None else Some((text[..k], text[k + 1..]))
  }

  /** A line that is read back as one line of a list. */
  predicate ListLine(line: string) {
    '\n' !in line && line != "#"
  }

  /** The lines before the first "#", and the text after it. */
  function TakeList(text: string): (r: Option<(seq<string>, string)>)
    ensures r.Some? ==> |r.value.1| < |text| && forall line | line in r.value.0 :: ListLine(line)
    decreases |text|
  {
    match TakeLine(text)
    case None => None
    case Some((line, rest)) =>
      if line == "#" then Some(([], rest))
      else
        match TakeList(rest)
        case None => None
        case Some((lines, after)) => Some(([line] + lines, after))
  }

  /** What is read back as it was written: a path is a C string, an unwatchable path fits on a line. */
  predicate Readable(o: Output) {
    match o
    case Report(_, path) => NulFree(path)
    case Unwatchable(lines) => forall line | line in lines :: ListLine(line)
    case _ => true
  }

  /** The reader on the other side of the pipe: the first output of `text`, and the text after it. */
  function ReadOne(text: string): (r: Option<(Output, string)>)
    ensures r.Some? ==> |r.value.1| < |text| && Readable(r.value.0)
  {
    match TakeLine(text)
    case None => None
    case Some((first, more)) =>
      if first == "RESET" then Some((Reset, more))
      else if first == "UNWATCHEABLE" then
        match TakeList(more)
        case None => None
        case Some((lines, rest)) => Some((Unwatchable(lines), rest))
      else
        match TakeLine(more)
        case None => None
        case Some((second, rest)) => ReadTwo(first, second, rest)
  }

  function ReadTwo(first: string, second: string, rest: string): (r: Option<(Output, string)>)
    ensures r.Some? ==> r.value.1 == rest && Readable(r.value.0)
  {
    if first == "MESSAGE" then if second == "inotify.watch.limit" then Some((LimitMessage, rest)) else None
    else
      match ParseTag(first)
      case None => None
      case Some(tag) => Some((Report(tag, Unescape(second)), rest))
  }

  function ReadOutput(text: string): (r: Option<seq<Output>>)
    ensures r.Some? ==> forall o | o in r.value :: Readable(o)
    decreases |text|
  {
    if text == "" then Some([])
    else
      match ReadOne(text)
      case None => None
      case Some((o, rest)) =>
        match ReadOutput(rest)
        case None => None
        case Some(more) => Some([o] + more)
  }

  lemma TakeLineIs(line: string, rest: string)
    requires '\n' !in line
    ensures TakeLine(line + "\n" + rest) == Some((line, rest))
  {
    var text := line + "\n" + rest;
    assert text[|line|] == '\n' && forall i | 0 <= i < |line| :: text[i] == line[i] && line[i] in line;
    assert LineEnd(text) == |line|;
    assert text[..|line|] == line && text[|line| + 1..] == rest;
  }

  lemma TagParses(tag: Tag)
    ensures '\n' !in TagText(tag) && ParseTag(TagText(tag)) == Some(tag)
  {
  }

  lemma UnescapeEscape(path: string)
    requires NulFree(path)
    ensures '\n' !in Escape(path) && Unescape(Escape(path)) == path
  {
  }

  /** A report is exactly two lines. */
  lemma ReportIsTwoLines(tag: Tag, path: string)
    requires NulFree(path)
    ensures var text := Render(Report(tag, path));
      && |text| == |TagText(tag)| + |path| + 2
      && forall i | 0 <= i < |text| :: text[i] == '\n' <==> i == |TagText(tag)| || i == |text| - 1
  {
    TagParses(tag);
    UnescapeEscape(path);
    var a, b := TagText(tag), Escape(path);
    var text := a + "\n" + b + "\n";
    forall i | 0 <= i < |text| ensures text[i] == '\n' <==> i == |a| || i == |text| - 1 {
      if i < |a| { assert text[i] in a; } else if |a| < i < |text| - 1 { assert text[i] in b; }
    }
  }

  lemma EndOfList(rest: string)
    ensures TakeList("#\n" + rest) == Some(([], rest))
  {
    assert "#\n" + rest == "#" + "\n" + rest;
    TakeLineIs("#", rest);
  }

  lemma Regroup(a: string, b: string, c: string)
    ensures (a + "\n" + b) + c == a + "\n" + (b + c)
  {
  }

  lemma TakeListCons(line: string, after: string)
    requires ListLine(line) && TakeList(after).Some?
    ensures TakeList(line + "\n" + after) == Some(([line] + TakeList(after).value.0, TakeList(after).value.1))
  {
    TakeLineIs(line, after);
  }

  lemma {:induction false} TakeListIs(lines: seq<string>, tail: string, rest: string)
    requires forall line | line in lines :: ListLine(line)
    requires TakeList(tail) == Some(([], rest))
    ensures TakeList(Lines(lines) + tail) == Some((lines, rest))
  {
    if lines == [] {
      assert Lines(lines) + tail == tail;
    } else {
      assert lines[0] in lines && forall line | line in lines[1..] :: line in lines;
      TakeListIs(lines[1..], tail, rest);
      Regroup(lines[0], Lines(lines[1..]), tail);
      TakeListCons(lines[0], Lines(lines[1..]) + tail);
      assert lines == [lines[0]] + lines[1..];
    }
  }

  lemma ReadsReport(tag: Tag, path: string, rest: string)
    requires NulFree(path)
    ensures ReadOne(Render(Report(tag, path)) + rest) == Some((Report(tag, path), rest))
  {
    TagParses(tag);
    UnescapeEscape(path);
    var more := Escape(path) + "\n" + rest;
    assert Render(Report(tag, path)) + rest == TagText(tag) + "\n" + more;
    TakeLineIs(TagText(tag), more);
    TakeLineIs(Escape(path), rest);
    TagIsNoKeyword(tag);
  }

  lemma TagIsNoKeyword(tag: Tag)
    ensures TagText(tag) != "RESET" && TagText(tag) != "UNWATCHEABLE" && TagText(tag) != "MESSAGE"
  {
  }

  lemma ReadsList(lines: seq<string>, rest: string)
    requires forall line | line in lines :: ListLine(line)
    ensures ReadOne(Render(Unwatchable(lines)) + rest) == Some((Unwatchable(lines), rest))
  {
    var more := Lines(lines) + ("#\n" + rest);
    assert "UNWATCHEABLE\n" == "UNWATCHEABLE" + "\n";
    assert Render(Unwatchable(lines)) + rest == "UNWATCHEABLE" + "\n" + more;
    TakeLineIs("UNWATCHEABLE", more);
    EndOfList(rest);
    TakeListIs(lines, "#\n" + rest, rest);
  }

  lemma ReadsReset(rest: string)
    ensures ReadOne(Render(Reset) + rest) == Some((Reset, rest))
  {
    assert "RESET\n" == "RESET" + "\n";
    TakeLineIs("RESET", rest);
  }

  lemma ReadsLimitMessage(rest: string)
    ensures ReadOne(Render(LimitMessage) + rest) == Some((LimitMessage, rest))
  {
    var limit := "inotify.watch.limit";
    assert Render(LimitMessage) == "MESSAGE" + "\n" + (limit + "\n");
    Regroup("MESSAGE", limit + "\n", rest);
    TakeLineIs("MESSAGE", limit + "\n" + rest);
    TakeLineIs(limit, rest);
  }

  lemma ReadsOne(o: Output, rest: string)
    requires Readable(o)
    ensures ReadOne(Render(o) + rest) == Some((o, rest))
  {
    match o
    case Report(tag, path) => ReadsReport(tag, path, rest);
    case Unwatchable(lines) => ReadsList(lines, rest);
    case Reset => ReadsReset(rest);
    case LimitMessage => ReadsLimitMessage(rest);
  }

  function Joined<T>(items: seq<T>, text: T -> string): string {
    if items == [] then "" else Joined(items[..|items| - 1], text) + text(items[|items| - 1])
  }

  lemma {:induction false} JoinedFromFront<T>(items: seq<T>, text: T -> string)
    requires items != []
    ensures Joined(items, text) == text(items[0]) + Joined(items[1..], text)
  {
    var n := |items| - 1;
    if n == 0 {
      assert items[..n] == [] && items[1..] == [];
      assert text(items[0]) + "" == text(items[0]);
    } else {
      JoinedFromFront(items[..n], text);
      var middle := Joined(items[1..][..n - 1], text);
      assert items[..n][1..] == items[1..][..n - 1];
      assert (text(items[0]) + middle) + text(items[n]) == text(items[0]) + (middle + text(items[n]));
    }
  }

  lemma {:induction false} RenderAllIsJoined(out: seq<Output>, text: Output -> string)
    requires forall o :: text(o) == Render(o)
    ensures RenderAll(out) == Joined(out, text)
  {
    if out != [] { RenderAllIsJoined(out[..|out| - 1], text); }
  }

  lemma RenderFromFront(out: seq<Output>)
    requires out != []
    ensures RenderAll(out) == Render(out[0]) + RenderAll(out[1..])
  {
    RenderAllIsJoined(out, Render);
    RenderAllIsJoined(out[1..], Render);
    JoinedFromFront(out, Render);
  }

  lemma {:induction false} OutputReadsBack(out: seq<Output>)
    requires forall o | o in out :: Readable(o)
    ensures ReadOutput(RenderAll(out)) == Some(out)
  {
    if out != [] {
      assert out[0] in out && forall o | o in out[1..] :: o in out;
      OutputReadsBack(out[1..]);
      RenderFromFront(out);
      ReadsOne(out[0], RenderAll(out[1..]));
      assert ReadOne("") == None;
      assert out == [out[0]] + out[1..];
    }
  }

  /** Any output is read back as it was written, newlines inside reported paths included, if and only if no
      unwatchable path is "#" or contains a newline. */
  lemma OutputReadsBackIff(out: seq<Output>)
    requires forall o | o in out && o.Report? :: NulFree(o.path)
    ensures ReadOutput(RenderAll(out)) == Some(out) <==>
      forall o | o in out && o.Unwatchable? :: forall line | line in o.lines :: ListLine(line)
  {
    if forall o | o in out && o.Unwatchable? :: forall line | line in o.lines :: ListLine(line) {
      forall o | o in out ensures Readable(o) {}
      OutputReadsBack(out);
    } else {
      var o :| o in out && o.Unwatchable? && !(forall line | line in o.lines :: ListLine(line));
      assert !Readable(o);
    }
  }

  /** A mount with a newline in its name is written like two mounts. */
  lemma NewlineSplitsMount(before: seq<string>, x: string, y: string)
    ensures Render(Unwatchable(before + [x + "\n" + y])) == Render(Unwatchable(before + [x, y]))
  {
    LinesOfConcat(before, [x + "\n" + y]);
    LinesOfConcat(before, [x, y]);
    assert [x, y][1..] == [y] && Lines([y]) == y + "\n" && Lines([x + "\n" + y]) == x + "\n" + y + "\n";
    assert Lines([x, y]) == x + "\n" + (y + "\n") == x + "\n" + y + "\n";
  }

  lemma {:induction false} LinesOfConcat(a: seq<string>, b: seq<string>)
    ensures Lines(a + b) == Lines(a) + Lines(b)
  {
    if a == [] {
      assert a + b == b;
    } else {
      assert (a + b)[1..] == a[1..] + b;
      LinesOfConcat(a[1..], b);
    }
  }
}
