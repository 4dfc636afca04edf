/** The notification protocol: three printers and a parser that cuts its buffer in place. */
module ServiceNotify {
  import opened Sequences

  const NUL: char := '\0'
  const NEWLINE: char := '\n'

  /** What a message says. */
  datatype Notice = Notice(ready: bool, stopping: bool, status: Option<string>)

  const SILENCE := Notice(false, false, None)

  /** Both said, `b` last: flags add up, the later status wins. */
  function Merge(a: Notice, b: Notice): Notice {
    Notice(a.ready || b.ready, a.stopping || b.stopping, if b.status.Some? then b.status else a.status)
  }

  function ApplyLine(n: Notice, line: string): Notice {
    var e := IndexOf(line, '=');
    if e == |line| then n
    else ApplyPair(n, line[..e], line[e + 1..])
  }

  function ApplyPair(n: Notice, key: string, value: string): Notice {
    if key == "READY" then (if value == "1" then n.(ready := true) else n)
    else if key == "STOPPING" then (if value == "1" then n.(stopping := true) else n)
    else if key == "STATUS" then n.(status := Some(value))
    else n
  }

  /** Line by line, from what is known already. */
  function ParseFrom(n: Notice, text: string): Notice
    decreases |text|
  {
    var e := IndexOf(text, NEWLINE);
    if e == |text| then ApplyLine(n, text)
    else ParseFrom(ApplyLine(n, text[..e]), text[e + 1..])
  }

  function ParseSpec(message: string): Notice {
    ParseFrom(SILENCE, message)
  }

  // ---- parsing is a homomorphism over lines ----

  lemma ApplyLineMerges(n: Notice, line: string)
    ensures ApplyLine(n, line) == Merge(n, ApplyLine(SILENCE, line))
  {
  }

  lemma {:induction false} ParseFromMerges(n: Notice, text: string)
    ensures ParseFrom(n, text) == Merge(n, ParseSpec(text))
    decreases |text|
  {
    hide ApplyLine, IndexOf;
    var e := IndexOf(text, NEWLINE);
    if e == |text| {
      ApplyLineMerges(n, text);
    } else {
      var line, rest := text[..e], text[e + 1..];
      ApplyLineMerges(n, line);
      ParseFromMerges(ApplyLine(n, line), rest);
      ParseFromMerges(ApplyLine(SILENCE, line), rest);
    }
  }

  lemma {:induction false} ParseFromConcat(n: Notice, a: string, b: string)
    ensures ParseFrom(n, a + [NEWLINE] + b) == ParseFrom(ParseFrom(n, a), b)
    decreases |a|
  {
    var text := a + [NEWLINE] + b;
    var e := IndexOf(a, NEWLINE);
    if e == |a| {
      IndexOfUniqueFirst(text, NEWLINE, |a|);
      assert text[..|a|] == a && text[|a| + 1..] == b;
    } else {
      IndexOfUniqueFirst(text, NEWLINE, e);
      assert text[..e] == a[..e];
      assert text[e + 1..] == a[e + 1..] + [NEWLINE] + b;
      ParseFromConcat(ApplyLine(n, a[..e]), a[e + 1..], b);
    }
  }

  lemma IndexOfUniqueFirst(s: string, c: char, i: nat)
    requires i < |s| && s[i] == c && forall k :: 0 <= k < i ==> s[k] != c
    ensures IndexOf(s, c) == i
  {
  }

  /** Parsing two texts joined by a newline is merging what each of them says. */
  lemma ParseIsHomomorphism(a: string, b: string)
    ensures ParseSpec(a + [NEWLINE] + b) == Merge(ParseSpec(a), ParseSpec(b))
  {
    ParseFromConcat(SILENCE, a, b);
    ParseFromMerges(ParseSpec(a), b);
  }

  // ---- what every text says ----

  const STATUS_PREFIX := "STATUS="

  /** The lines of a text: one more than it has newlines. */
  function Lines(text: string): (r: seq<string>)
    ensures r != []
    decreases |text|
  {
    var e := IndexOf(text, NEWLINE);
    if e == |text| then [text] else [text[..e]] + Lines(text[e + 1..])
  }

  function Join(lines: seq<string>): string
    requires lines != []
  {
    if |lines| == 1 then lines[0] else lines[0] + [NEWLINE] + Join(lines[1..])
  }

  /** These are the lines: no newline within one, and joined they are the text. */
  lemma {:induction false} LinesAreTheText(text: string)
    ensures Join(Lines(text)) == text
    ensures forall k :: 0 <= k < |Lines(text)| ==> NEWLINE !in Lines(text)[k]
    decreases |text|
  {
    hide IndexOf;
    var e := IndexOf(text, NEWLINE);
    if e < |text| {
      LinesAreTheText(text[e + 1..]);
      assert Lines(text)[1..] == Lines(text[e + 1..]);
    }
  }

  predicate SaysStatus(line: string) {
    STATUS_PREFIX <= line
  }

  /** What stands before the first '=' is the key exactly when the line starts with it and an '='. */
  lemma KeyOf(line: string, key: string)
    requires '=' !in key
    ensures var e := IndexOf(line, '='); e < |line| && line[..e] == key <==> key + "=" <= line
    ensures key + "=" <= line ==> IndexOf(line, '=') == |key|
  {
    hide IndexOf;
    var e := IndexOf(line, '=');
    if e < |line| && line[..e] == key {
      assert line[..e + 1] == key + "=";
    }
    if key + "=" <= line {
      assert line[|key|] == (key + "=")[|key|];
      assert forall k :: 0 <= k < |key| ==> line[k] == (key + "=")[k] == key[k];
      IndexOfUniqueFirst(line, '=', |key|);
      assert line[..|key|] == key;
    }
  }

  lemma KeyValueOf(line: string, key: string, value: string)
    requires '=' !in key
    ensures var e := IndexOf(line, '=');
      e < |line| && line[..e] == key && line[e + 1..] == value <==> line == key + "=" + value
  {
    hide IndexOf;
    KeyOf(line, key);
    var e := IndexOf(line, '=');
    if key + "=" <= line {
      assert line[..|key| + 1] == key + "=";
      assert line == key + "=" + line[|key| + 1..];
      if line == key + "=" + value { assert line[|key| + 1..] == value; }
    }
    if line == key + "=" + value { assert key + "=" <= line; }
  }

  lemma LineIsPair(n: Notice, line: string)
    ensures var e := IndexOf(line, '=');
      ApplyLine(n, line) == if e == |line| then n else ApplyPair(n, line[..e], line[e + 1..])
  {
    hide IndexOf, ApplyPair;
  }

  /** What one line changes, by the whole line. */
  lemma LineExactly(n: Notice, line: string)
    ensures var n' := ApplyLine(n, line);
      && n'.ready == (n.ready || line == "READY=1")
      && n'.stopping == (n.stopping || line == "STOPPING=1")
      && n'.status == if SaysStatus(line) then Some(line[|STATUS_PREFIX|..]) else n.status
  {
    KeyValueOf(line, "READY", "1");
    KeyValueOf(line, "STOPPING", "1");
    KeyOf(line, "STATUS");
    assert "READY" + "=" + "1" == "READY=1";
    assert "STOPPING" + "=" + "1" == "STOPPING=1";
    assert "STATUS" + "=" == STATUS_PREFIX;
    var e := IndexOf(line, '=');
    if e < |line| { PairExactly(n, line[..e], line[e + 1..]); }
    hide IndexOf, ApplyPair;
  }

  lemma PairExactly(n: Notice, key: string, value: string)
    ensures var n' := ApplyPair(n, key, value);
      && n'.ready == (n.ready || (key == "READY" && value == "1"))
      && n'.stopping == (n.stopping || (key == "STOPPING" && value == "1"))
      && n'.status == if key == "STATUS" then Some(value) else n.status
  {
  }

  /** What follows the prefix on the last line that has it. */
  function StatusOf(lines: seq<string>): Option<string> {
    if lines == [] then None
    else
      var later := StatusOf(lines[1..]);
      if later.Some? then later
      else if SaysStatus(lines[0]) then Some(lines[0][|STATUS_PREFIX|..]) else None
  }

  predicate LastStatus(lines: seq<string>, k: nat) {
    k < |lines| && SaysStatus(lines[k]) && forall j :: k < j < |lines| ==> !SaysStatus(lines[j])
  }

  lemma {:induction false} StatusOfLast(lines: seq<string>)
    ensures StatusOf(lines).None? <==> forall k :: 0 <= k < |lines| ==> !SaysStatus(lines[k])
    ensures forall k: nat :: LastStatus(lines, k) ==> StatusOf(lines) == Some(lines[k][|STATUS_PREFIX|..])
    ensures StatusOf(lines).Some? ==> exists k: nat :: LastStatus(lines, k)
  {
    if lines != [] {
      var rest := lines[1..];
      assert forall k :: 0 <= k < |rest| ==> rest[k] == lines[k + 1];
      StatusOfLast(rest);
      forall k: nat | LastStatus(lines, k) ensures StatusOf(lines) == Some(lines[k][|STATUS_PREFIX|..]) {
        if k > 0 { assert LastStatus(rest, k - 1); }
      }
      if StatusOf(rest).Some? {
        var k: nat :| LastStatus(rest, k);
        assert LastStatus(lines, k + 1);
      } else if SaysStatus(lines[0]) {
        assert LastStatus(lines, 0);
      }
    }
  }

  lemma {:induction false} ParseFromExactly(n: Notice, text: string)
    ensures var lines, n' := Lines(text), ParseFrom(n, text);
      && n'.ready == (n.ready || "READY=1" in lines)
      && n'.stopping == (n.stopping || "STOPPING=1" in lines)
      && n'.status == if StatusOf(lines).Some? then StatusOf(lines) else n.status
    decreases |text|
  {
    var e := IndexOf(text, NEWLINE);
    hide ApplyLine, SaysStatus, IndexOf;
    if e == |text| {
      LineExactly(n, text);
      assert Lines(text)[1..] == [];
    } else {
      var line, rest := text[..e], Lines(text[e + 1..]);
      LineExactly(n, line);
      ParseFromExactly(ApplyLine(n, line), text[e + 1..]);
      assert Lines(text) == [line] + rest && Lines(text)[1..] == rest;
    }
  }

  /** The parser, for every text: a flag is set exactly when some line is the flag's line to
      the letter, and the status is what follows the prefix on the last line that has it. */
  lemma ParseExactly(text: string)
    ensures var lines, n := Lines(text), ParseSpec(text);
      && (n.ready <==> "READY=1" in lines)
      && (n.stopping <==> "STOPPING=1" in lines)
      && (n.status.None? <==> forall k :: 0 <= k < |lines| ==> !SaysStatus(lines[k]))
      && forall v :: n.status == Some(v) <==> exists k: nat :: LastStatus(lines, k) && lines[k] == STATUS_PREFIX + v
  {
    hide ParseFrom, Lines, StatusOf;
    var lines, n := Lines(text), ParseSpec(text);
    ParseFromExactly(SILENCE, text);
    StatusOfLast(lines);
    forall k: nat | LastStatus(lines, k) ensures lines[k] == STATUS_PREFIX + lines[k][|STATUS_PREFIX|..] {
      AfterPrefix(lines[k]);
    }
    forall k: nat, v | LastStatus(lines, k) && lines[k] == STATUS_PREFIX + v ensures lines[k][|STATUS_PREFIX|..] == v {}
  }

  lemma AfterPrefix(line: string)
    requires SaysStatus(line)
    ensures line == STATUS_PREFIX + line[|STATUS_PREFIX|..]
  {
  }

  // ---- the printers ----

  datatype Message = ReadyMessage | StoppingMessage | StatusMessage(text: string)

  /** The text sent for a message; a status with a newline in it is refused. */
  function Print(m: Message): Option<string> {
    match m
    case ReadyMessage => Some("READY=1\n")
    case StoppingMessage => Some("STOPPING=1\n")
    case StatusMessage(text) => if NEWLINE in text then None else Some("STATUS=" + text + "\n")
  }

  function Line(m: Message): string {
    match m
    case ReadyMessage => "READY=1"
    case StoppingMessage => "STOPPING=1"
    case StatusMessage(text) => "STATUS=" + text
  }

  /** What the sender of a message means. */
  function Meaning(m: Message): Notice {
    match m
    case ReadyMessage => SILENCE.(ready := true)
    case StoppingMessage => SILENCE.(stopping := true)
    case StatusMessage(text) => SILENCE.(status := Some(text))
  }

  function PrintAll(ms: seq<Message>): Option<string> {
    if ms == [] then Some("")
    else
      var first, rest := Print(ms[0]), PrintAll(ms[1..]);
      if first.Some? && rest.Some? then Some(first.value + rest.value) else None
  }

  function MeaningAll(ms: seq<Message>): Notice {
    if ms == [] then SILENCE else Merge(Meaning(ms[0]), MeaningAll(ms[1..]))
  }

  /** A printed line says what its message means. */
  lemma LineSays(n: Notice, m: Message)
    ensures ApplyLine(n, Line(m)) == Merge(n, Meaning(m))
  {
    hide ApplyLine;
    var line := Line(m);
    LineExactly(n, line);
    assert STATUS_PREFIX[2] == 'A';
    match m
    case ReadyMessage => assert line[2] == 'A' && line[1] == 'E' && STATUS_PREFIX[1] == 'T';
    case StoppingMessage => assert line[2] == 'O';
    case StatusMessage(text) =>
      assert line[..|STATUS_PREFIX|] == STATUS_PREFIX && line[|STATUS_PREFIX|..] == text;
      assert line[0] == 'S' && line[2] == 'A';
  }

  /** What is printed is one line with its newline. */
  lemma PrintedIsLine(m: Message)
    requires Print(m).Some?
    ensures Print(m).value == Line(m) + [NEWLINE] && NEWLINE !in Line(m)
  {
    assert Print(m).value == Line(m) + "\n";
  }

  lemma ParsePrinted(n: Notice, m: Message, rest: string)
    requires Print(m).Some?
    ensures ParseFrom(n, Print(m).value + rest) == ParseFrom(Merge(n, Meaning(m)), rest)
  {
    hide Line, Print, Meaning, ApplyLine;
    PrintedIsLine(m);
    LineSays(n, m);
    var line := Line(m);
    var text := Print(m).value + rest;
    IndexOfUniqueFirst(text, NEWLINE, |line|);
    assert text[..|line|] == line && text[|line| + 1..] == rest;
  }

  lemma {:induction false} ParseAllPrinted(n: Notice, ms: seq<Message>)
    requires PrintAll(ms).Some?
    ensures ParseFrom(n, PrintAll(ms).value) == Merge(n, MeaningAll(ms))
    decreases |ms|
  {
    if ms != [] {
      ParsePrinted(n, ms[0], PrintAll(ms[1..]).value);
      ParseAllPrinted(Merge(n, Meaning(ms[0])), ms[1..]);
    }
  }

  /** Round trip: any concatenation of printed messages parses to what they mean, in order,
      whatever the statuses contain besides newlines; and it can be printed exactly when no
      status contains one. */
  lemma {:induction false} RoundTrip(ms: seq<Message>)
    ensures PrintAll(ms).Some? <==> forall k :: 0 <= k < |ms| && ms[k].StatusMessage? ==> NEWLINE !in ms[k].text
    ensures PrintAll(ms).Some? ==> ParseSpec(PrintAll(ms).value) == MeaningAll(ms)
    decreases |ms|
  {
    if ms != [] {
      RoundTrip(ms[1..]);
      assert forall k :: 0 <= k < |ms| ==> ms[k] == if k == 0 then ms[0] else ms[1..][k - 1];
    }
    if PrintAll(ms).Some? { ParseAllPrinted(SILENCE, ms); }
  }

  // ---- the parser in place ----

  /** The C string that starts at `start` of a buffer. */
  ghost predicate CString(buf: array<char>, start: nat, s: string)
    reads buf
  {
    && start + |s| < buf.Length
    && buf[start..start + |s|] == s && NUL !in s
    && buf[start + |s|] == NUL
  }

  lemma StringAt(buf: array<char>, start: nat, s: string)
    requires CString(buf, start, s)
    ensures forall i :: start <= i < start + |s| ==> buf[i] == s[i - start] != NUL
  {
    assert forall i :: start <= i < start + |s| ==> buf[i] == buf[start..start + |s|][i - start];
  }

  method StrDup(buf: array<char>, start: nat, ghost s: string) returns (r: string)
    requires CString(buf, start, s)
    ensures r == s
  {
    StringAt(buf, start, s);
    r := "";
    var i := start;
    while buf[i] != NUL
      invariant start <= i <= start + |s|
      invariant r == s[..i - start]
      decreases start + |s| - i
    {
      r := r + [buf[i]];
      i := i + 1;
    }
  }

  /** Position of the first `c` in the string, -1 when there is none. */
  method StrChr(buf: array<char>, start: nat, c: char, ghost s: string) returns (i: int)
    requires CString(buf, start, s) && c != NUL
    ensures i == if c in s then start + IndexOf(s, c) else -1
  {
    StringAt(buf, start, s);
    i := start;
    while buf[i] != NUL
      invariant start <= i <= start + |s|
      invariant forall k :: 0 <= k < i - start ==> s[k] != c
      decreases start + |s| - i
    {
      if buf[i] == c {
        IndexOfUniqueFirst(s, c, i - start);
        return;
      }
      i := i + 1;
    }
    return -1;
  }

  /** `*equals = '\0'`: the line becomes two strings, the rest of the buffer stays. */
  method CutAtEquals(buf: array<char>, line: nat, ghost s: string, equals: nat, ghost save: nat, ghost left: string)
    requires Between(buf, line, s, save, left) && line <= equals < line + |s|
    modifies buf
    ensures CString(buf, line, s[..equals - line]) && CString(buf, equals + 1, s[equals - line + 1..])
    ensures CString(buf, save, left)
  {
    ghost var was := buf[..];
    ghost var key, value := s[..equals - line], s[equals - line + 1..];
    StringAt(buf, line, s);
    buf[equals] := NUL;
    assert buf[line..line + |key|] == key;
    assert buf[equals + 1..equals + 1 + |value|] == value;
    RestUntouched(was, buf, save, left);
  }

  class Notification {
    var ready: bool
    var stopping: bool
    var status: Option<string>

    constructor ()
      ensures Value() == SILENCE
    {
      ready, stopping, status := false, false, None;
    }

    function Value(): Notice
      reads this
    {
      Notice(ready, stopping, status)
    }

    /** Cuts the line at its first '=' and takes note of what it says. */
    method ApplyLineInPlace(buf: array<char>, line: nat, ghost s: string, ghost save: nat, ghost left: string)
      requires Between(buf, line, s, save, left)
      modifies this, buf
      ensures Value() == ApplyLine(old(Value()), s)
      ensures ready == (old(ready) || s == "READY=1") && stopping == (old(stopping) || s == "STOPPING=1")
      ensures status == if SaysStatus(s) then Some(s[|STATUS_PREFIX|..]) else old(status)
      ensures CString(buf, save, left)
    {
      hide ApplyLine, ApplyPair, SaysStatus, IndexOf, CString;
      LineExactly(Value(), s);
      LineIsPair(Value(), s);
      var equals := StrChr(buf, line, '=', s);
      if equals < 0 {
        return;
      }
      ghost var key, value := s[..equals - line], s[equals - line + 1..];
      CutAtEquals(buf, line, s, equals, save, left);
      var k := StrDup(buf, line, key);
      var v := StrDup(buf, equals + 1, value);
      Note(k, v);
    }

    method Note(key: string, value: string)
      modifies this
      ensures Value() == ApplyPair(old(Value()), key, value)
    {
      if key == "READY" {
        if value == "1" {
          ready := true;
        }
      } else if key == "STOPPING" {
        if value == "1" {
          stopping := true;
        }
      } else if key == "STATUS" {
        status := Some(value);
      }
    }
  }

  lemma {:induction false} NewlinesSayNothing(n: Notice, text: string)
    requires forall k :: 0 <= k < |text| ==> text[k] == NEWLINE
    ensures ParseFrom(n, text) == n
    decreases |text|
  {
    if text != "" {
      assert text[..0] == "";
      NewlinesSayNothing(n, text[1..]);
    }
  }

  lemma {:induction false} LeadingNewlines(n: Notice, text: string, i: nat)
    requires i <= |text| && forall k :: 0 <= k < i ==> text[k] == NEWLINE
    ensures ParseFrom(n, text) == ParseFrom(n, text[i..])
    decreases i
  {
    if i > 0 {
      assert text[..0] == "";
      LeadingNewlines(n, text[1..], i - 1);
      assert text[1..][i - 1..] == text[i..];
    }
  }

  function AfterLine(n: Notice, text: string, e: nat): Notice
    requires e <= |text|
  {
    if e < |text| then ParseFrom(ApplyLine(n, text[..e]), text[e + 1..]) else ApplyLine(n, text)
  }

  lemma FirstLine(n: Notice, text: string, e: nat)
    requires e <= |text| && (e < |text| ==> text[e] == NEWLINE) && forall k :: 0 <= k < e ==> text[k] != NEWLINE
    ensures ParseFrom(n, text) == AfterLine(n, text, e)
  {
    if e < |text| { IndexOfUniqueFirst(text, NEWLINE, e); }
  }

  /** Skips the delimiters before the next line. */
  method SkipNewlines(buf: array<char>, save: nat, ghost text: string) returns (i: nat)
    requires CString(buf, save, text)
    ensures save <= i <= save + |text| && CString(buf, i, text[i - save..])
    ensures i < save + |text| ==> buf[i] != NEWLINE
    ensures forall n :: ParseFrom(n, text) == ParseFrom(n, text[i - save..])
  {
    StringAt(buf, save, text);
    i := save;
    while buf[i] == NEWLINE
      invariant save <= i <= save + |text|
      invariant forall k :: 0 <= k < i - save ==> text[k] == NEWLINE
      decreases save + |text| - i
    {
      i := i + 1;
    }
    forall n ensures ParseFrom(n, text) == ParseFrom(n, text[i - save..]) { LeadingNewlines(n, text, i - save); }
    assert buf[i..save + |text|] == text[i - save..] by { assert buf[save..save + |text|] == text; }
  }

  /** The end of the line that starts at `line`. */
  method ScanLine(buf: array<char>, line: nat, ghost text: string) returns (i: nat)
    requires CString(buf, line, text)
    ensures line <= i <= line + |text|
    ensures i < line + |text| ==> buf[i] == NEWLINE
    ensures forall k :: 0 <= k < i - line ==> text[k] != NEWLINE
    ensures forall n :: ParseFrom(n, text) == AfterLine(n, text, i - line)
  {
    hide ParseFrom, AfterLine;
    StringAt(buf, line, text);
    i := line;
    while buf[i] != NUL && buf[i] != NEWLINE
      invariant line <= i <= line + |text|
      invariant forall k :: 0 <= k < i - line ==> text[k] != NEWLINE
      decreases line + |text| - i
    {
      i := i + 1;
    }
    forall n ensures ParseFrom(n, text) == AfterLine(n, text, i - line) {
      FirstLine(n, text, i - line);
    }
  }

  /** `strtok_r` with the newline as only delimiter, on the C string from `save`: the start of
      the next line, cut off by a NUL, and where to go on; -1 when only newlines are left. */
  method StrTok(buf: array<char>, save: nat, ghost text: string) returns (line: int, next: nat, ghost token: string)
    requires CString(buf, save, text)
    modifies buf
    ensures line < 0 ==> forall n :: ParseFrom(n, text) == n
    ensures 0 <= line ==>
      && save <= line && line + |token| <= next <= save + |text| && line < next
      && CString(buf, line, token) && CString(buf, next, text[next - save..])
      && forall n :: ParseFrom(n, text) == ParseFrom(ApplyLine(n, token), text[next - save..])
  {
    hide ParseFrom, ApplyLine, IndexOf;
    token := "";
    next := save;
    var start := SkipNewlines(buf, save, text);
    ghost var tail := text[start - save..];
    StringAt(buf, start, tail);
    if buf[start] == NUL {
      forall n ensures ParseFrom(n, text) == n { NewlinesSayNothing(n, tail); }
      return -1, next, token;
    }
    line := start;
    var end := ScanLine(buf, start, tail);
    ghost var e := end - start;
    token := tail[..e];
    if buf[end] == NUL {
      next := end;
      assert token == tail && text[next - save..] == "";
      forall n ensures ParseFrom(n, text) == ParseFrom(ApplyLine(n, token), "") {
        NewlinesSayNothing(ApplyLine(n, token), "");
      }
    } else {
      buf[end] := NUL;
      next := end + 1;
      assert tail[e + 1..] == text[next - save..];
      assert buf[next..start + |tail|] == tail[e + 1..];
    }
    assert buf[start..end] == token;
  }

  /** The working copy of a message. */
  method Duplicate(message: string) returns (buf: array<char>)
    requires NUL !in message
    ensures fresh(buf) && CString(buf, 0, message)
  {
    buf := new char[|message| + 1](_ => NUL);
    var i := 0;
    while i < |message|
      invariant i <= |message| && buf[..i] == message[..i] && buf[|message|] == NUL
    {
      buf[i] := message[i];
      i := i + 1;
    }
    assert buf[0..|message|] == message;
  }

  /** The whole parser, on a message that is a C string. */
  method Parse(message: string) returns (notification: Notification)
    requires NUL !in message
    ensures fresh(notification) && notification.Value() == ParseSpec(message)
    ensures notification.ready == ("READY=1" in Lines(message))
    ensures notification.stopping == ("STOPPING=1" in Lines(message))
    ensures forall v :: notification.status == Some(v) <==>
      exists k: nat :: LastStatus(Lines(message), k) && Lines(message)[k] == STATUS_PREFIX + v
  {
    hide ParseFrom, ApplyLine, LastStatus;
    ParseExactly(message);
    notification := new Notification();
    var buf := Duplicate(message);
    var line, save;
    ghost var token;
    line, save, token := StrTok(buf, 0, message);
    ghost var left := if line < 0 then message else message[save..];
    while line >= 0
      invariant 0 <= line ==> Between(buf, line, token, save, left)
      invariant 0 <= line ==> ParseFrom(ApplyLine(notification.Value(), token), left) == ParseSpec(message)
      invariant line < 0 ==> notification.Value() == ParseSpec(message)
      invariant fresh(notification) && fresh(buf)
      decreases if line < 0 then 0 else 1 + buf.Length - save
    {
      notification.ApplyLineInPlace(buf, line, token, save, left);
      ghost var from := save;
      line, save, token := StrTok(buf, save, left);
      left := if line < 0 then left else left[save - from..];
    }
  }

  /** A line cut off at `line`, and the rest of the buffer from `save`. */
  ghost predicate Between(buf: array<char>, line: nat, token: string, save: nat, left: string)
    reads buf
  {
    CString(buf, line, token) && CString(buf, save, left) && line + |token| <= save
  }

  lemma RestUntouched(was: seq<char>, buf: array<char>, save: nat, left: string)
    requires |was| == buf.Length && save + |left| < buf.Length && was[save..save + |left|] == left
    requires forall k :: save <= k < buf.Length ==> buf[k] == was[k]
    ensures buf[save..save + |left|] == left
  {
  }
}
