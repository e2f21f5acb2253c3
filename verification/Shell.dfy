/** src/kmain.c: the shell's line accumulator and command dispatch. */
module Shell {
  import opened Bits64
  import opened CString

  const CR: byte := 13
  const LF: byte := 10
  const COMMAND_BUF_SIZE := 256

  // ---- Reference: the command lines of a byte stream ----

  /** A carriage return or a line feed. */
  predicate IsLineEnd(c: byte) {
    c == '\r' as int || c == '\n' as int
  }

  /** Index of the first line end, or the length of the stream. */
  function LineEnd(stream: seq<byte>): (k: nat)
    ensures k <= |stream| && (k < |stream| ==> IsLineEnd(stream[k]))
    ensures forall i :: 0 <= i < k ==> !IsLineEnd(stream[i])
  {
    if stream == [] || IsLineEnd(stream[0]) then 0 else 1 + LineEnd(stream[1..])
  }

  /** The pieces of the stream that a line end closes. */
  function ClosedLines(stream: seq<byte>): seq<seq<byte>>
    decreases |stream|
  {
    var k := LineEnd(stream);
    if k == |stream| then [] else [stream[..k]] + ClosedLines(stream[k + 1..])
  }

  /** What follows the last line end. */
  function OpenLine(stream: seq<byte>): seq<byte>
    decreases |stream|
  {
    var k := LineEnd(stream);
    if k == |stream| then stream else OpenLine(stream[k + 1..])
  }

  /** A line as the command buffer holds it: its first 255 bytes. */
  function Cut(line: seq<byte>): seq<byte> {
    Take(line, COMMAND_BUF_SIZE - 1)
  }

  function Commands(lines: seq<seq<byte>>): seq<seq<byte>> {
    if lines == [] then []
    else (if lines[0] == [] then [] else [Cut(lines[0])]) + Commands(lines[1..])
  }

  /** The command lines a stream asks for: its closed, non-empty lines, each cut to 255 bytes. */
  function CommandLines(stream: seq<byte>): seq<seq<byte>> {
    Commands(ClosedLines(stream))
  }

  // ---- The accumulator, one byte at a time ----

  datatype State = State(line: seq<byte>, dispatched: seq<seq<byte>>)

  const START := State([], [])

  function Accept(s: State, c: byte): State {
    if IsLineEnd(c) then State([], if s.line == [] then s.dispatched else s.dispatched + [s.line])
    else if |s.line| < COMMAND_BUF_SIZE - 1 then State(s.line + [c], s.dispatched)
    else s
  }

  function AcceptAll(s: State, bytes: seq<byte>): State
    decreases |bytes|
  {
    if bytes == [] then s else Accept(AcceptAll(s, bytes[..|bytes| - 1]), bytes[|bytes| - 1])
  }

  /** How the bytes are batched makes no difference. */
  lemma {:induction false} AcceptBatches(s: State, a: seq<byte>, b: seq<byte>)
    ensures AcceptAll(s, a + b) == AcceptAll(AcceptAll(s, a), b)
    decreases |b|
  {
    if b == [] {
      assert a + b == a;
    } else {
      AcceptBatches(s, a, b[..|b| - 1]);
      assert (a + b)[..|a + b| - 1] == a + b[..|b| - 1];
    }
  }

  lemma AcceptNothing(s: State)
    ensures AcceptAll(s, []) == s
  {
  }

  /** One more byte. */
  lemma AcceptStep(s: State, bytes: seq<byte>, n: nat)
    requires n < |bytes|
    ensures AcceptAll(s, bytes[..n + 1]) == Accept(AcceptAll(s, bytes[..n]), bytes[n])
  {
    assert bytes[..n + 1][..n] == bytes[..n];
  }

  lemma {:induction false} LineEndSnoc(stream: seq<byte>, c: byte)
    ensures LineEnd(stream) < |stream| ==> LineEnd(stream + [c]) == LineEnd(stream)
    ensures LineEnd(stream) == |stream| ==> LineEnd(stream + [c]) == if IsLineEnd(c) then |stream| else |stream| + 1
    decreases |stream|
  {
    if stream != [] && !IsLineEnd(stream[0]) {
      LineEndSnoc(stream[1..], c);
      assert (stream + [c])[1..] == stream[1..] + [c];
    } else if stream == [] {
      assert LineEnd([c]) == if IsLineEnd(c) then 0 else 1 + LineEnd([c][1..]);
    }
  }

  lemma SplitAtLineEnd(stream: seq<byte>)
    requires LineEnd(stream) < |stream|
    ensures var k := LineEnd(stream);
            && ClosedLines(stream) == [stream[..k]] + ClosedLines(stream[k + 1..])
            && OpenLine(stream) == OpenLine(stream[k + 1..])
  {
    hide LineEnd, IsLineEnd;
  }

  lemma NoLineEnd(stream: seq<byte>)
    requires LineEnd(stream) == |stream|
    ensures ClosedLines(stream) == [] && OpenLine(stream) == stream
  {
  }

  /** One more byte either closes the open line or extends it. */
  lemma {:induction false} LinesSnoc(stream: seq<byte>, c: byte)
    ensures IsLineEnd(c) ==> && ClosedLines(stream + [c]) == ClosedLines(stream) + [OpenLine(stream)]
                             && OpenLine(stream + [c]) == []
    ensures !IsLineEnd(c) ==> && ClosedLines(stream + [c]) == ClosedLines(stream)
                              && OpenLine(stream + [c]) == OpenLine(stream) + [c]
    decreases |stream|
  {
    hide LineEnd, ClosedLines, OpenLine, IsLineEnd;
    var k, s := LineEnd(stream), stream + [c];
    LineEndSnoc(stream, c);
    if k < |stream| {
      SplitAtLineEnd(stream);
      SplitAtLineEnd(s);
      assert s[..k] == stream[..k] && s[k + 1..] == stream[k + 1..] + [c];
      LinesSnoc(stream[k + 1..], c);
      assert [stream[..k]] + (ClosedLines(stream[k + 1..]) + [OpenLine(stream)])
          == ([stream[..k]] + ClosedLines(stream[k + 1..])) + [OpenLine(stream)];
    } else {
      NoLineEnd(stream);
      if IsLineEnd(c) {
        SplitAtLineEnd(s);
        assert s[..k] == stream && s[k + 1..] == [];
        NoLineEnd([]);
      } else {
        NoLineEnd(s);
      }
    }
  }

  lemma CommandsSnoc(lines: seq<seq<byte>>, line: seq<byte>)
    ensures Commands(lines + [line]) == Commands(lines) + (if line == [] then [] else [Cut(line)])
  {
    hide Commands, Cut;
    CommandsMean(line, lines, [line]);
  }

  /** From the start, the accumulator dispatches exactly the command lines of what it was given. */
  lemma {:induction false} DispatchesCommandLines(stream: seq<byte>)
    ensures AcceptAll(START, stream) == State(Cut(OpenLine(stream)), CommandLines(stream))
    decreases |stream|
  {
    if stream != [] {
      var init, c := stream[..|stream| - 1], stream[|stream| - 1];
      assert stream == init + [c];
      DispatchesCommandLines(init);
      LinesSnoc(init, c);
      CommandsSnoc(ClosedLines(init), OpenLine(init));
    } else {
      assert LineEnd(stream) == 0;
    }
  }

  // ---- What lines are ----

  /** The bytes 10 and 13 of a stream, in order. */
  function EndsOf(stream: seq<byte>): (r: seq<byte>)
    ensures forall i :: 0 <= i < |r| ==> r[i] == 10 || r[i] == 13
  {
    if stream == [] then [] else (if stream[0] == 10 || stream[0] == 13 then [stream[0]] else []) + EndsOf(stream[1..])
  }

  /** A line holds neither 10 nor 13. */
  predicate Plain(line: seq<byte>) {
    forall i :: 0 <= i < |line| ==> line[i] != 10 && line[i] != 13
  }

  /** Lines with the bytes that ended them. */
  function Rejoin(lines: seq<seq<byte>>, ends: seq<byte>): seq<byte>
    requires |lines| == |ends|
  {
    if lines == [] then [] else lines[0] + [ends[0]] + Rejoin(lines[1..], ends[1..])
  }

  lemma {:induction false} PlainHasNoEnds(line: seq<byte>, rest: seq<byte>)
    requires Plain(line)
    ensures EndsOf(line + rest) == EndsOf(rest)
    ensures LineEnd(line + rest) == |line| + LineEnd(rest)
    decreases |line|
  {
    hide EndsOf, LineEnd, IsLineEnd;
    if line == [] {
      assert line + rest == rest;
    } else {
      PlainHasNoEnds(line[1..], rest);
      assert (line + rest)[1..] == line[1..] + rest;
      OrdinaryByte(line + rest);
    }
  }

  lemma OrdinaryByte(stream: seq<byte>)
    requires stream != [] && stream[0] != 10 && stream[0] != 13
    ensures EndsOf(stream) == EndsOf(stream[1..]) && LineEnd(stream) == 1 + LineEnd(stream[1..])
  {
    assert EndsOf(stream) == [] + EndsOf(stream[1..]);
  }

  /** Up to its first end byte a stream is a plain line. */
  lemma FirstLine(stream: seq<byte>)
    ensures Plain(stream[..LineEnd(stream)])
    ensures LineEnd(stream) < |stream| ==> stream[LineEnd(stream)] == 10 || stream[LineEnd(stream)] == 13
  {
  }

  lemma Assoc(a: seq<byte>, b: seq<byte>, c: seq<byte>, d: seq<byte>)
    ensures a + b + c + d == a + b + (c + d)
  {
  }

  lemma Halves(s: seq<byte>, k: nat)
    requires k <= |s|
    ensures s[..k] + s[k..] == s
    ensures k < |s| ==>
              s[k..] != [] && s[k..][0] == s[k] && s[k..][1..] == s[k + 1..] && s[..k] + [s[k]] + s[k + 1..] == s
  {
  }

  lemma EndsStep(s: seq<byte>)
    requires s == [] || s[0] == 10 || s[0] == 13
    ensures EndsOf(s) == if s == [] then [] else [s[0]] + EndsOf(s[1..])
  {
  }

  lemma FirstEnd(stream: seq<byte>)
    ensures var k := LineEnd(stream);
            EndsOf(stream) == if k == |stream| then [] else [stream[k]] + EndsOf(stream[k + 1..])
  {
    hide LineEnd, Plain, IsLineEnd, EndsOf;
    var k := LineEnd(stream);
    FirstLine(stream);
    Halves(stream, k);
    PlainHasNoEnds(stream[..k], stream[k..]);
    EndsStep(stream[k..]);
  }

  lemma NoLines(open: seq<byte>)
    ensures Rejoin([], []) + open == open
  {
  }

  lemma RejoinOne(lines: seq<seq<byte>>, ends: seq<byte>, open: seq<byte>)
    requires |lines| == |ends| > 0
    ensures Rejoin(lines, ends) + open == lines[0] + [ends[0]] + (Rejoin(lines[1..], ends[1..]) + open)
  {
    Assoc(lines[0], [ends[0]], Rejoin(lines[1..], ends[1..]), open);
  }

  ghost predicate AllPlain(lines: seq<seq<byte>>) {
    forall i :: 0 <= i < |lines| ==> Plain(lines[i])
  }

  lemma PlainCons(line: seq<byte>, lines: seq<seq<byte>>)
    ensures AllPlain([]) && (Plain(line) && AllPlain(lines) ==> AllPlain([line] + lines))
    ensures ([line] + lines)[0] == line && ([line] + lines)[1..] == lines
  {
    hide Plain;
  }

  lemma EndCons(e: byte, ends: seq<byte>)
    ensures ([e] + ends)[0] == e && ([e] + ends)[1..] == ends
  {
  }

  /** Closed lines and open line hold no end byte, and together with the end bytes they are the stream. */
  lemma {:induction false} LinesMean(stream: seq<byte>)
    ensures |ClosedLines(stream)| == |EndsOf(stream)| && AllPlain(ClosedLines(stream)) && Plain(OpenLine(stream))
    ensures Rejoin(ClosedLines(stream), EndsOf(stream)) + OpenLine(stream) == stream
    decreases |stream|
  {
    hide LineEnd, IsLineEnd, ClosedLines, OpenLine, Plain, AllPlain, EndsOf, Rejoin;
    var k := LineEnd(stream);
    FirstLine(stream);
    FirstEnd(stream);
    Halves(stream, k);
    if k == |stream| {
      NoLineEnd(stream);
      PlainCons(stream, []);
      assert stream[..k] == stream;
      NoLines(stream);
    } else {
      var rest := stream[k + 1..];
      LinesMean(rest);
      SplitAtLineEnd(stream);
      PlainCons(stream[..k], ClosedLines(rest));
      EndCons(stream[k], EndsOf(rest));
      RejoinOne(ClosedLines(stream), EndsOf(stream), OpenLine(stream));
    }
  }

  /** And they are the only such lines. */
  lemma {:induction false} LinesUnique(lines: seq<seq<byte>>, ends: seq<byte>, open: seq<byte>)
    requires |lines| == |ends| && Plain(open) && AllPlain(lines)
    requires forall i :: 0 <= i < |ends| ==> ends[i] == 10 || ends[i] == 13
    ensures ClosedLines(Rejoin(lines, ends) + open) == lines && OpenLine(Rejoin(lines, ends) + open) == open
    decreases |lines|
  {
    hide LineEnd, ClosedLines, OpenLine, Plain, AllPlain, Rejoin, EndsOf, IsLineEnd;
    if lines == [] {
      OneOpenLine(open);
      NoLines(open);
    } else {
      PlainAt(lines);
      LinesUnique(lines[1..], ends[1..], open);
      RejoinOne(lines, ends, open);
      var rest := Rejoin(lines[1..], ends[1..]) + open;
      LineInFront(lines[0], ends[0], rest);
      assert [lines[0]] + lines[1..] == lines;
    }
  }

  lemma PlainAt(lines: seq<seq<byte>>)
    requires lines != [] && AllPlain(lines)
    ensures Plain(lines[0]) && AllPlain(lines[1..])
  {
    hide Plain;
  }

  lemma OneOpenLine(open: seq<byte>)
    requires Plain(open)
    ensures ClosedLines(open) == [] && OpenLine(open) == open
  {
    hide LineEnd, ClosedLines, OpenLine, EndsOf;
    PlainHasNoEnds(open, []);
    assert open + [] == open;
    NoLineEnd(open);
  }

  lemma LineInFront(line: seq<byte>, e: byte, rest: seq<byte>)
    requires Plain(line) && (e == 10 || e == 13)
    ensures ClosedLines(line + [e] + rest) == [line] + ClosedLines(rest) && OpenLine(line + [e] + rest) == OpenLine(rest)
  {
    hide LineEnd, ClosedLines, OpenLine, Plain, EndsOf;
    var stream := line + [e] + rest;
    assert stream == line + ([e] + rest);
    PlainHasNoEnds(line, [e] + rest);
    EndAtOnce(e, rest);
    SplitAtLineEnd(stream);
    assert stream[..|line|] == line && stream[|line| + 1..] == rest;
  }

  lemma EndAtOnce(e: byte, rest: seq<byte>)
    requires e == 10 || e == 13
    ensures LineEnd([e] + rest) == 0
  {
  }

  /** As many lines are closed as the stream has bytes 10 and 13. */
  lemma LineCount(stream: seq<byte>)
    ensures |ClosedLines(stream)| == multiset(stream)[10] + multiset(stream)[13]
  {
    hide ClosedLines, OpenLine, EndsOf, Plain;
    LinesMean(stream);
    EndCount(stream);
  }

  lemma {:induction false} EndCount(stream: seq<byte>)
    ensures |EndsOf(stream)| == multiset(stream)[10] + multiset(stream)[13]
    decreases |stream|
  {
    if stream != [] {
      EndCount(stream[1..]);
      assert stream == [stream[0]] + stream[1..];
    }
  }

  /** A command is its line, cut to 255 bytes; empty lines are no commands; lines are taken in order. */
  lemma CommandsMean(line: seq<byte>, a: seq<seq<byte>>, b: seq<seq<byte>>)
    ensures |line| <= 255 ==> Cut(line) == line
    ensures |line| > 255 ==> |Cut(line)| == 255 && Cut(line) == line[..255]
    ensures Commands([]) == [] && Commands([line]) == if line == [] then [] else [Cut(line)]
    ensures Commands(a + b) == Commands(a) + Commands(b)
  {
    assert [line][1..] == [];
    CommandsConcat(a, b);
  }

  lemma {:induction false} CommandsConcat(a: seq<seq<byte>>, b: seq<seq<byte>>)
    ensures Commands(a + b) == Commands(a) + Commands(b)
    decreases |a|
  {
    hide Cut;
    if a == [] {
      assert a + b == b;
    } else {
      CommandsConcat(a[1..], b);
      assert (a + b)[1..] == a[1..] + b;
      var first: seq<seq<byte>> := if a[0] == [] then [] else [Cut(a[0])];
      assert first + (Commands(a[1..]) + Commands(b)) == first + Commands(a[1..]) + Commands(b);
    }
  }

  // ---- Dispatch: which command a closed line runs ----

  datatype Command = Uptime | Echo(text: seq<byte>) | Alarm(seconds: u64) | Unknown(text: seq<byte>)

  const UPTIME: seq<byte> := [117, 112, 116, 105, 109, 101]
  const ECHO: seq<byte> := [101, 99, 104, 111, 32]
  const ALARM: seq<byte> := [97, 108, 97, 114, 109, 32]

  /** A NUL received inside a line ends the command early. */
  function UpToNul(line: seq<byte>): (r: seq<byte>)
    ensures |r| <= |line| && r == line[..|r|] && (|r| < |line| ==> line[|r|] == 0)
    ensures forall i :: 0 <= i < |r| ==> r[i] != 0
  {
    if line == [] || line[0] == 0 then [] else [line[0]] + UpToNul(line[1..])
  }

  function Interpret(line: seq<byte>): Command {
    var text := UpToNul(line);
    if Take(text, 6) == UPTIME then Uptime
    else if Take(text, 5) == ECHO then Echo(text[5..])
    else if Take(text, 6) == ALARM then Alarm(Number(text[6..], 10))
    else Unknown(text)
  }

  function Interpretations(lines: seq<seq<byte>>): (r: seq<Command>)
    ensures |r| == |lines| && forall i :: 0 <= i < |r| ==> r[i] == Interpret(lines[i])
  {
    if lines == [] then [] else Interpretations(lines[..|lines| - 1]) + [Interpret(lines[|lines| - 1])]
  }

  lemma DigitsAreNoNul(digits: seq<byte>)
    requires AllDigits(digits, 10)
    ensures forall i :: 0 <= i < |digits| ==> digits[i] != 0
  {
    assert forall i :: 0 <= i < |digits| ==> Digit(digits[i]) < 10;
  }

  lemma InterpretationsSnoc(lines: seq<seq<byte>>, line: seq<byte>)
    ensures Interpretations(lines + [line]) == Interpretations(lines) + [Interpret(line)]
  {
    hide Interpret;
    assert (lines + [line])[..|lines|] == lines;
  }

  lemma {:induction false} UpToNulConcat(a: seq<byte>, b: seq<byte>)
    requires forall i :: 0 <= i < |a| ==> a[i] != 0
    ensures UpToNul(a + b) == a + UpToNul(b)
    decreases |a|
  {
    hide UpToNul;
    if a == [] {
      assert a + b == b;
    } else {
      UpToNulConcat(a[1..], b);
      assert (a + b)[1..] == a[1..] + b;
      UpToNulStep(a + b);
    }
  }

  lemma UpToNulStep(line: seq<byte>)
    requires line != [] && line[0] != 0
    ensures UpToNul(line) == [line[0]] + UpToNul(line[1..])
  {
  }

  /** The line begins with these bytes. */
  predicate Starts(line: seq<byte>, prefix: string) {
    |prefix| <= |line| && line[..|prefix|] == Bytes(prefix)
  }

  lemma Names()
    ensures UPTIME == Bytes("uptime") && ECHO == Bytes("echo ") && ALARM == Bytes("alarm ")
  {
  }

  lemma PrefixText(line: seq<byte>, prefix: seq<byte>)
    requires prefix != [] && forall i :: 0 <= i < |prefix| ==> prefix[i] != 0
    ensures Take(UpToNul(line), |prefix|) == prefix <==> |prefix| <= |line| && line[..|prefix|] == prefix
    ensures |prefix| <= |line| && line[..|prefix|] == prefix ==>
              |prefix| <= |UpToNul(line)| && UpToNul(line)[|prefix|..] == UpToNul(line[|prefix|..])
  {
    hide UpToNul;
    var n, text := |prefix|, UpToNul(line);
    if n <= |line| && line[..n] == prefix {
      UpToNulConcat(prefix, line[n..]);
      assert prefix + line[n..] == line;
    }
  }

  /** What the shell does with a line, by how the line begins: a longer word that begins with "uptime" counts too. */
  lemma InterpretMeans(line: seq<byte>)
    ensures Starts(line, "uptime") ==> Interpret(line) == Uptime
    ensures Starts(line, "echo ") ==> Interpret(line) == Echo(UpToNul(line[5..]))
    ensures Starts(line, "alarm ") ==> Interpret(line) == Alarm(Number(UpToNul(line[6..]), 10))
    ensures !Starts(line, "uptime") && !Starts(line, "echo ") && !Starts(line, "alarm ") ==>
              Interpret(line) == Unknown(UpToNul(line))
  {
    hide UpToNul, Number, Take;
    Names();
    PrefixText(line, UPTIME);
    PrefixText(line, ECHO);
    PrefixText(line, ALARM);
    OneStart(line);
  }

  /** No line begins with two of the names. */
  lemma OneStart(line: seq<byte>)
    ensures Starts(line, "uptime") ==> !Starts(line, "echo ") && !Starts(line, "alarm ")
    ensures Starts(line, "echo ") ==> !Starts(line, "alarm ")
  {
    if Starts(line, "uptime") {
      assert line[0] == line[..6][0] == 'u' as int;
    }
    if Starts(line, "echo ") {
      assert line[0] == line[..5][0] == 'e' as int;
    }
    if Starts(line, "alarm ") {
      assert line[0] == line[..6][0] == 'a' as int;
    }
  }

  lemma {:induction false} UpToNulPlain(text: seq<byte>)
    requires forall i :: 0 <= i < |text| ==> text[i] != 0
    ensures UpToNul(text) == text
  {
    assert UpToNul(text) == text[..|text|];
  }

  /** Digits after "alarm " set the alarm to the number they denote. */
  lemma AlarmArgument(digits: seq<byte>)
    requires AllDigits(digits, 10) && Value(digits, 10) < WORD
    ensures Interpret(Bytes("alarm ") + digits) == Alarm(Value(digits, 10))
  {
    hide Value, Number, UpToNul, Interpret;
    var line := Bytes("alarm ") + digits;
    assert line[..6] == Bytes("alarm ") && line[6..] == digits;
    InterpretMeans(line);
    DigitsAreNoNul(digits);
    UpToNulPlain(digits);
    PlainNumber(digits);
    SmallMod(Value(digits, 10), WORD);
  }

  /** The shell's locals in kmain(), with a record of what it ran. */
  class CommandShell {
    const commandBuf: array<byte>
    var commandIndex: nat
    var executed: seq<Command>
    ghost var dispatched: seq<seq<byte>>

    ghost predicate Valid()
      reads this
    {
      && commandBuf.Length == COMMAND_BUF_SIZE
      && commandIndex < COMMAND_BUF_SIZE
      && executed == Interpretations(dispatched)
    }

    ghost function Contents(): State
      reads this, commandBuf
      requires Valid()
    {
      State(commandBuf[..commandIndex], dispatched)
    }

    constructor ()
      ensures Valid() && Contents() == START && fresh(commandBuf)
    {
      commandBuf := new byte[COMMAND_BUF_SIZE];
      commandIndex := 0;
      executed := [];
      dispatched := [];
    }

    /** The chain of strncmp() tests on the terminated buffer: src/kmain.c:51-63. */
    method RunCommand(mem: seq<byte>, ghost line: seq<byte>) returns (command: Command)
      requires |line| < |mem| && mem[..|line|] == line && mem[|line|] == 0
      ensures command == Interpret(line)
    {
      ghost var text := UpToNul(line);
      assert mem[0..0 + |text|] == text;
      assert mem[|text|] == 0 by {
        if |text| < |line| {
          assert mem[|text|] == line[|text|];
        }
      }
      StrIs(mem, 0, text);
      var uptime := HasPrefix(mem, 0, UPTIME);
      if uptime {
        return Uptime;
      }
      var echo := HasPrefix(mem, 0, ECHO);
      if echo {
        StrSuffix(mem, 0, 5);
        var argument := CopyOfStr(mem, 5);
        return Echo(argument);
      }
      var alarm := HasPrefix(mem, 0, ALARM);
      if alarm {
        StrSuffix(mem, 0, 6);
        var seconds := StrToU64(mem, 6, 10);
        return Alarm(seconds);
      }
      var argument := CopyOfStr(mem, 0);
      return Unknown(argument);
    }

    /** What serial_puts() sends: the bytes up to the terminator. */
    method CopyOfStr(mem: seq<byte>, p: nat) returns (s: seq<byte>)
      requires Terminated(mem, p)
      ensures s == Str(mem, p)
    {
      var len := StrLen(mem, p);
      s := mem[p..p + len];
    }

    /** The body of the loop over the bytes read: src/kmain.c:37-71. */
    method ProcessByte(currentChar: byte)
      requires Valid()
      modifies this, commandBuf
      ensures Valid() && Contents() == Accept(old(Contents()), currentChar)
    {
      hide Interpret, Interpretations;
      if currentChar == CR || currentChar == LF {
        commandBuf[commandIndex] := 0;
        if commandIndex > 0 {
          ghost var line := commandBuf[..commandIndex];
          var command := RunCommand(commandBuf[..], line);
          executed := executed + [command];
          dispatched := dispatched + [line];
          InterpretationsSnoc(old(dispatched), line);
        }
        commandIndex := 0;
      } else if commandIndex < COMMAND_BUF_SIZE - 1 {
        commandBuf[commandIndex] := currentChar;
        commandIndex := commandIndex + 1;
      }
    }

    /** One batch that serial_read() delivered. */
    method ProcessInput(inputBuf: array<byte>, readBytes: nat)
      requires Valid() && readBytes <= inputBuf.Length && inputBuf != commandBuf
      modifies this, commandBuf
      ensures Valid() && Contents() == AcceptAll(old(Contents()), inputBuf[..readBytes])
    {
      hide Accept, AcceptAll;
      var i := 0;
      ghost var start, input := Contents(), inputBuf[..readBytes];
      AcceptNothing(start);
      assert input[..0] == [];
      while i < readBytes
        invariant i <= readBytes && Valid() && inputBuf[..readBytes] == input
        invariant Contents() == AcceptAll(start, input[..i])
      {
        assert inputBuf[i] == input[i];
        AcceptStep(start, input, i);
        ProcessByte(inputBuf[i]);
        i := i + 1;
      }
      assert input[..i] == input;
    }
  }
}
