/**
  What the shell does with the fragments of a logical line: each fragment is
  split on `;` (`Shell::process_input_line`), blank segments are dropped,
  and every remaining segment is split on whitespace into a program name and
  its arguments (`Shell::process_input_command`). The spawns themselves are
  stated here as the ordered list of requests they make.
 */
module Commands {
  import opened Wrappers
  import opened Text
  import opened LineReading

  const Separator: char := ';'

  /** A request to start the program `name` with the argument vector `args`,
      as `Command::new(name).args(args)` hands it to the operating system. */
  datatype Request = Request(name: string, args: seq<string>)

  /** A segment survives the splitter when its trimmed form is not empty. */
  predicate IsCommand(segment: string) {
    Trim(segment) != []
  }

  /** The segments the splitter keeps, untrimmed and in their order. */
  function KeepCommands(segments: seq<string>): (kept: seq<string>)
    ensures forall i :: 0 <= i < |kept| ==> IsCommand(kept[i]) && kept[i] in segments
    decreases |segments|
  {
    if segments == [] then []
    else (if IsCommand(segments[0]) then [segments[0]] else []) + KeepCommands(segments[1..])
  }

  /** Every position moved one place up, as the positions of a tail are in
      the whole sequence. */
  function Shift(positions: seq<nat>): seq<nat> {
    seq(|positions|, k requires 0 <= k < |positions| => positions[k] + 1)
  }

  /** The positions of the segments the splitter keeps. */
  function CommandPositions(segments: seq<string>): seq<nat>
    decreases |segments|
  {
    if segments == [] then []
    else (if IsCommand(segments[0]) then [0] else []) + Shift(CommandPositions(segments[1..]))
  }

  /** The kept segments are the segments at `CommandPositions`, one for one. */
  lemma {:induction false} KeepCommandsAtPositions(segments: seq<string>)
    ensures var idx, kept := CommandPositions(segments), KeepCommands(segments);
      && |idx| == |kept|
      && forall k :: 0 <= k < |idx| ==> idx[k] < |segments| && kept[k] == segments[idx[k]]
    decreases |segments|
  {
    if segments != [] {
      var others := segments[1..];
      KeepCommandsAtPositions(others);
      var tail, rest := CommandPositions(others), KeepCommands(others);
      ShiftedPositions(segments, tail, rest);
      if IsCommand(segments[0]) {
        PrependPosition(segments, Shift(tail), rest);
      }
    }
  }

  /** The positions of the tail's kept segments, shifted, point at the same
      segments in the whole sequence. */
  lemma ShiftedPositions(segments: seq<string>, tail: seq<nat>, rest: seq<string>)
    requires segments != [] && |tail| == |rest|
    requires forall k :: 0 <= k < |tail| ==> tail[k] < |segments[1..]| && rest[k] == segments[1..][tail[k]]
    ensures var shifted := Shift(tail);
      forall k :: 0 <= k < |shifted| ==> shifted[k] < |segments| && rest[k] == segments[shifted[k]]
  {
  }

  /** Keeping segment 0 puts position 0 in front. */
  lemma PrependPosition(segments: seq<string>, shifted: seq<nat>, rest: seq<string>)
    requires segments != [] && |shifted| == |rest|
    requires forall k :: 0 <= k < |shifted| ==> shifted[k] < |segments| && rest[k] == segments[shifted[k]]
    ensures var idx, kept := [0] + shifted, [segments[0]] + rest;
      forall k :: 0 <= k < |idx| ==> idx[k] < |segments| && kept[k] == segments[idx[k]]
  {
    var idx, kept := [0] + shifted, [segments[0]] + rest;
    forall k | 1 <= k < |idx| ensures idx[k] < |segments| && kept[k] == segments[idx[k]] {
      assert idx[k] == shifted[k - 1] && kept[k] == rest[k - 1];
    }
  }

  /** The positions are strictly increasing. */
  predicate Increasing(idx: seq<nat>) {
    forall k, l :: 0 <= k < l < |idx| ==> idx[k] < idx[l]
  }

  /** The positions increase: the splitter keeps the segments in order. */
  lemma {:induction false} CommandPositionsIncrease(segments: seq<string>)
    ensures Increasing(CommandPositions(segments))
    decreases |segments|
  {
    if segments != [] {
      CommandPositionsIncrease(segments[1..]);
      var tail := CommandPositions(segments[1..]);
      var shifted := Shift(tail);
      assert Increasing(shifted) by {
        forall k, l | 0 <= k < l < |shifted| ensures shifted[k] < shifted[l] {
          assert tail[k] < tail[l];
        }
      }
      if IsCommand(segments[0]) {
        PrependZero(shifted);
      }
    }
  }

  /** Position 0 goes before any increasing run of positive positions. */
  lemma PrependZero(shifted: seq<nat>)
    requires forall k :: 0 <= k < |shifted| ==> 1 <= shifted[k]
    requires Increasing(shifted)
    ensures Increasing([0] + shifted)
  {
    var idx := [0] + shifted;
    forall k, l | 0 <= k < l < |idx| ensures idx[k] < idx[l] {
      assert idx[l] == shifted[l - 1];
      if k > 0 { assert idx[k] == shifted[k - 1]; }
    }
  }

  /** A position is in a shifted list exactly when the one before it is
      in the list, and position 0 never is. */
  lemma ShiftMembership(positions: seq<nat>, j: nat)
    ensures j in positions <==> j + 1 in Shift(positions)
    ensures 0 !in Shift(positions)
  {
    var shifted := Shift(positions);
    if j in positions {
      var k :| 0 <= k < |positions| && positions[k] == j;
      assert shifted[k] == j + 1;
    }
  }

  /** A position is kept exactly when its segment's trimmed form is not
      empty: every non-blank segment is kept and no blank one is. */
  lemma {:induction false} CommandPositionsAreNonBlank(segments: seq<string>)
    ensures var idx := CommandPositions(segments);
      && (forall k :: 0 <= k < |idx| ==> idx[k] < |segments|)
      && (forall i :: 0 <= i < |segments| ==> (IsCommand(segments[i]) <==> i in idx))
    decreases |segments|
  {
    if segments != [] {
      var rest := segments[1..];
      CommandPositionsAreNonBlank(rest);
      var tail := CommandPositions(rest);
      var shifted := Shift(tail);
      var head: seq<nat> := if IsCommand(segments[0]) then [0] else [];
      var idx := CommandPositions(segments);
      assert idx == head + shifted;
      forall k | 0 <= k < |idx| ensures idx[k] < |segments| {
        if k >= |head| { assert idx[k] == shifted[k - |head|]; }
      }
      forall i | 0 <= i < |segments| ensures IsCommand(segments[i]) <==> i in idx {
        ShiftMembership(tail, if i == 0 then 0 else i - 1);
        if i > 0 {
          assert segments[i] == rest[i - 1];
        }
      }
    }
  }

  /** Filtering distributes over concatenation; the splitter's loop relies
      on it when it appends one segment at a time. */
  lemma {:induction false} KeepCommandsAppend(a: seq<string>, b: seq<string>)
    ensures KeepCommands(a + b) == KeepCommands(a) + KeepCommands(b)
    decreases |a|
  {
    if a != [] {
      assert (a + b)[0] == a[0];
      assert (a + b)[1..] == a[1..] + b;
      KeepCommandsAppend(a[1..], b);
      var head := if IsCommand(a[0]) then [a[0]] else [];
      assert KeepCommands(a + b) == head + (KeepCommands(a[1..]) + KeepCommands(b));
    } else {
      assert a + b == b;
    }
  }

  /** One segment is kept exactly when it is a command. */
  lemma KeepCommandsOfOne(segment: string)
    ensures KeepCommands([segment]) == if IsCommand(segment) then [segment] else []
  {
    assert [segment][1..] == [];
  }

  /** Filtering one more segment, as the splitter's loop does. */
  lemma KeepCommandsSnoc(segments: seq<string>, i: nat)
    requires i < |segments|
    ensures KeepCommands(segments[..i + 1]) ==
      KeepCommands(segments[..i]) + if IsCommand(segments[i]) then [segments[i]] else []
  {
    assert segments[..i + 1] == segments[..i] + [segments[i]];
    KeepCommandsAppend(segments[..i], [segments[i]]);
    KeepCommandsOfOne(segments[i]);
  }

  /** Only blank segments: nothing is kept. */
  lemma {:induction false} NothingKept(segments: seq<string>)
    requires forall i :: 0 <= i < |segments| ==> !IsCommand(segments[i])
    ensures KeepCommands(segments) == []
    decreases |segments|
  {
    if segments != [] {
      assert !IsCommand(segments[0]);
      NothingKept(segments[1..]);
    }
  }

  /** The commands of one fragment: its `;`-separated segments that are
      not blank, untrimmed, in order, none containing `;`. */
  function LineCommands(line: string): (commands: seq<string>)
    ensures forall i :: 0 <= i < |commands| ==> IsCommand(commands[i]) && Separator !in commands[i]
  {
    KeepCommands(Split(line, Separator))
  }

  /** A fragment made of nothing but `;` and whitespace yields no command,
      and it is the only kind of fragment that yields none. */
  lemma CommandsEmptyIffOnlySeparators(line: string)
    ensures LineCommands(line) == [] <==>
      forall i :: 0 <= i < |line| ==> line[i] == Separator || IsWhitespace(line[i])
  {
    var segments := Split(line, Separator);
    JoinSplit(line, Separator);
    KeepCommandsAtPositions(segments);
    CommandPositionsAreNonBlank(segments);
    if forall i :: 0 <= i < |line| ==> line[i] == Separator || IsWhitespace(line[i]) {
      forall k | 0 <= k < |segments| ensures !IsCommand(segments[k]) {
        forall j | 0 <= j < |segments[k]| ensures IsWhitespace(segments[k][j]) {
          PieceInJoin(segments, Separator, k, segments[k][j]);
        }
        TrimIsEmptyIffBlank(segments[k]);
      }
      NothingKept(segments);
    } else {
      var p :| 0 <= p < |line| && line[p] != Separator && !IsWhitespace(line[p]);
      var k := JoinCharInPiece(segments, Separator, line[p]);
      TrimIsEmptyIffBlank(segments[k]);
      assert k in CommandPositions(segments);
    }
  }

  /** The argument vector `process_input_command` builds from one command:
      nothing for a command without tokens, otherwise the first token as the
      program and the others as its arguments. */
  function RequestFor(command: string): Option<Request> {
    var tokens := SplitWhitespace(command);
    if tokens == [] then None else Some(Request(tokens[0], tokens[1..]))
  }

  /** A command makes no request exactly when it is blank; otherwise the
      name and arguments are words that hold, in order, every
      non-whitespace character of the command and nothing else. */
  lemma RequestForSpec(command: string)
    ensures RequestFor(command).None? <==> IsBlank(command)
    ensures RequestFor(command).None? <==> !IsCommand(command)
    ensures RequestFor(command).Some? ==>
      var r := RequestFor(command).value;
      && IsWord(r.name)
      && (forall i :: 0 <= i < |r.args| ==> IsWord(r.args[i]))
      && Concat([r.name] + r.args) == NonWhitespace(command)
  {
    SplitWhitespaceEmptyIffBlank(command);
    TrimIsEmptyIffBlank(command);
    SplitWhitespaceKeepsContent(command);
    var tokens := SplitWhitespace(command);
    if tokens != [] {
      assert [tokens[0]] + tokens[1..] == tokens;
    }
  }

  /** Round trip: a name and arguments written out with single spaces give
      back the same request. */
  lemma RequestForOfWords(name: string, args: seq<string>)
    requires IsWord(name)
    requires forall i :: 0 <= i < |args| ==> IsWord(args[i])
    ensures RequestFor(Join([name] + args, ' ')) == Some(Request(name, args))
  {
    var words := [name] + args;
    assert forall i :: 0 <= i < |words| ==> IsWord(words[i]);
    SplitWhitespaceOfJoin(words);
    assert words[1..] == args;
  }

  /** The requests one command makes: none or one. */
  function CommandRequests(command: string): seq<Request> {
    match RequestFor(command)
    case None => []
    case Some(r) => [r]
  }

  /** The requests a list of commands makes, command after command. */
  function Requests(commands: seq<string>): seq<Request>
    decreases |commands|
  {
    if commands == [] then [] else CommandRequests(commands[0]) + Requests(commands[1..])
  }

  lemma {:induction false} RequestsAppend(a: seq<string>, b: seq<string>)
    ensures Requests(a + b) == Requests(a) + Requests(b)
    decreases |a|
  {
    if a != [] {
      assert (a + b)[0] == a[0];
      assert (a + b)[1..] == a[1..] + b;
      RequestsAppend(a[1..], b);
      assert Requests(a + b) == CommandRequests(a[0]) + (Requests(a[1..]) + Requests(b));
    } else {
      assert a + b == b;
    }
  }

  /** One command makes its own requests and no more. */
  lemma RequestsOfOne(command: string)
    ensures Requests([command]) == CommandRequests(command)
  {
    assert [command][1..] == [];
  }

  /** The requests of one more command, as the dispatch loop makes them. */
  lemma RequestsSnoc(commands: seq<string>, i: nat)
    requires i < |commands|
    ensures Requests(commands[..i + 1]) == Requests(commands[..i]) + CommandRequests(commands[i])
  {
    assert commands[..i + 1] == commands[..i] + [commands[i]];
    RequestsAppend(commands[..i], [commands[i]]);
    RequestsOfOne(commands[i]);
  }

  /** When every command is non-blank, each makes exactly one request, and
      the requests come in the order of the commands. */
  lemma {:induction false} RequestsOfCommands(commands: seq<string>)
    requires forall i :: 0 <= i < |commands| ==> IsCommand(commands[i])
    ensures |Requests(commands)| == |commands|
    ensures forall i :: 0 <= i < |commands| ==> RequestFor(commands[i]) == Some(Requests(commands)[i])
    decreases |commands|
  {
    if commands != [] {
      RequestForSpec(commands[0]);
      RequestsOfCommands(commands[1..]);
      forall i | 1 <= i < |commands|
        ensures RequestFor(commands[i]) == Some(Requests(commands)[i])
      {
        assert commands[i] == commands[1..][i - 1];
      }
    }
  }

  /** The requests of one fragment. */
  function LineRequests(line: string): seq<Request> {
    Requests(LineCommands(line))
  }

  /** Every kept command of a fragment spawns, once, in segment order. */
  lemma EveryCommandSpawns(line: string)
    ensures |LineRequests(line)| == |LineCommands(line)|
    ensures forall i :: 0 <= i < |LineCommands(line)| ==>
      RequestFor(LineCommands(line)[i]) == Some(LineRequests(line)[i])
  {
    RequestsOfCommands(LineCommands(line));
  }

  /** The requests of a logical line: fragment after fragment, each split
      and tokenized on its own (fragments are not joined). */
  function SpawnTrace(fragments: seq<string>): seq<Request>
    decreases |fragments|
  {
    if fragments == [] then [] else LineRequests(fragments[0]) + SpawnTrace(fragments[1..])
  }

  /** Fragments are processed independently and in order. */
  lemma {:induction false} SpawnTraceAppend(a: seq<string>, b: seq<string>)
    ensures SpawnTrace(a + b) == SpawnTrace(a) + SpawnTrace(b)
    decreases |a|
  {
    if a != [] {
      assert (a + b)[0] == a[0];
      assert (a + b)[1..] == a[1..] + b;
      SpawnTraceAppend(a[1..], b);
      assert SpawnTrace(a + b) == LineRequests(a[0]) + (SpawnTrace(a[1..]) + SpawnTrace(b));
    } else {
      assert a + b == b;
    }
  }

  /** One fragment makes its own requests and no more. */
  lemma SpawnTraceOfOne(fragment: string)
    ensures SpawnTrace([fragment]) == LineRequests(fragment)
  {
    assert [fragment][1..] == [];
  }

  /** The requests of one more fragment. */
  lemma SpawnTraceSnoc(fragments: seq<string>, i: nat)
    requires i < |fragments|
    ensures SpawnTrace(fragments[..i + 1]) == SpawnTrace(fragments[..i]) + LineRequests(fragments[i])
  {
    assert fragments[..i + 1] == fragments[..i] + [fragments[i]];
    SpawnTraceAppend(fragments[..i], [fragments[i]]);
    SpawnTraceOfOne(fragments[i]);
  }

  /** A trace that held the requests of the first `i` fragments after
      `start`, extended by those of fragment `i`, holds those of the first
      `i + 1`: the step of the fragment loop. */
  lemma SpawnTraceStep(fragments: seq<string>, i: nat, start: seq<Request>, before: seq<Request>, after: seq<Request>)
    requires i < |fragments|
    requires before == start + SpawnTrace(fragments[..i])
    requires after == before + LineRequests(fragments[i])
    ensures after == start + SpawnTrace(fragments[..i + 1])
  {
    SpawnTraceSnoc(fragments, i);
    AppendAssociates(start, SpawnTrace(fragments[..i]), LineRequests(fragments[i]));
  }

  /** Appending is associative, stated on plain request sequences. */
  lemma AppendAssociates(a: seq<Request>, b: seq<Request>, c: seq<Request>)
    ensures (a + b) + c == a + (b + c)
  {
  }

  /** Every request made names a program and arguments that are words. */
  lemma {:induction false} SpawnTraceWellFormed(fragments: seq<string>)
    ensures forall k :: 0 <= k < |SpawnTrace(fragments)| ==>
      var r := SpawnTrace(fragments)[k];
      IsWord(r.name) && forall i :: 0 <= i < |r.args| ==> IsWord(r.args[i])
    decreases |fragments|
  {
    if fragments != [] {
      var line := fragments[0];
      EveryCommandSpawns(line);
      forall k | 0 <= k < |LineRequests(line)|
        ensures IsWord(LineRequests(line)[k].name)
        ensures forall i :: 0 <= i < |LineRequests(line)[k].args| ==> IsWord(LineRequests(line)[k].args[i])
      {
        RequestForSpec(LineCommands(line)[k]);
      }
      SpawnTraceWellFormed(fragments[1..]);
    }
  }

  /** A non-blank segment on its own is kept. */
  lemma KeepOne(segment: string)
    requires IsCommand(segment)
    ensures KeepCommands([segment]) == [segment]
  {
    var one := [segment];
    assert one[0] == segment && one[1..] == [];
    assert KeepCommands(one) == [segment] + KeepCommands(one[1..]);
  }

  /** The requests of two commands, one after the other. */
  lemma RequestsOfTwo(a: string, b: string)
    ensures Requests([a, b]) == CommandRequests(a) + CommandRequests(b)
  {
    var two := [a, b];
    assert two[0] == a && two[1..] == [b];
    assert [b][0] == b && [b][1..] == [];
    assert Requests([b]) == CommandRequests(b) + Requests([]);
    assert Requests(two) == CommandRequests(a) + Requests([b]);
  }

  /** The tail of a blank string is blank. */
  lemma BlankRest(tail: string)
    requires tail != [] && IsBlank(tail)
    ensures IsWhitespace(tail[0]) && IsBlank(tail[1..])
  {
    forall i | 0 <= i < |tail[1..]| ensures IsWhitespace(tail[1..][i]) {
      assert tail[1..][i] == tail[i + 1];
    }
  }

  /** A word followed by whitespace only is the one word. */
  lemma WordThenBlank(a: string, tail: string)
    requires IsWord(a) && IsBlank(tail)
    ensures SplitWhitespace(a + tail) == [a]
  {
    SplitWhitespaceOfWord(a);
    if tail == [] {
      assert a + tail == a;
    } else {
      var w, rest := tail[0], tail[1..];
      BlankRest(tail);
      assert a + tail == a + [w] + rest;
      SplitWhitespaceEmptyIffBlank(rest);
      SplitWhitespaceAt(a, w, rest);
    }
  }

  /** Two words separated by whitespace, then whitespace only. */
  lemma WordsOfTwo(a: string, b: string, w: char, tail: string)
    requires IsWord(a) && IsWord(b) && IsWhitespace(w) && IsBlank(tail)
    ensures SplitWhitespace(a + [w] + b + tail) == [a, b]
  {
    SplitWhitespaceOfWord(a);
    WordThenBlank(b, tail);
    SplitWhitespaceAt(a, w, b + tail);
    assert a + [w] + b + tail == a + [w] + (b + tail);
  }

  /** The segments of the example `echo hi ; ls ;;  `. */
  lemma ExampleSegments()
    ensures Split("echo hi ; ls ;;  ", Separator) == ["echo hi ", " ls ", "", "  "]
  {
    var segments := ["echo hi ", " ls ", "", "  "];
    assert Join(segments, Separator) == "echo hi ; ls ;;  ";
    SplitJoin(segments, Separator);
  }

  /** Two non-blank segments followed by two blank ones: the first two are
      kept. */
  lemma KeepFirstTwo(a: string, b: string, c: string, d: string)
    requires IsCommand(a) && IsCommand(b) && !IsCommand(c) && !IsCommand(d)
    ensures KeepCommands([a, b, c, d]) == [a, b]
  {
    KeepOne(a);
    KeepOne(b);
    NothingKept([c, d]);
    assert [a, b, c, d] == [a] + [b] + [c, d];
    KeepCommandsAppend([a] + [b], [c, d]);
    KeepCommandsAppend([a], [b]);
  }

  lemma ExampleBlankness()
    ensures IsCommand("echo hi ") && IsCommand(" ls ") && !IsCommand("") && !IsCommand("  ")
  {
    TrimIsEmptyIffBlank("echo hi ");
    assert !IsWhitespace("echo hi "[0]);
    TrimIsEmptyIffBlank(" ls ");
    assert !IsWhitespace(" ls "[1]);
    TrimIsEmptyIffBlank("");
    TrimIsEmptyIffBlank("  ");
  }

  /** The segments of the example that the splitter keeps. */
  lemma ExampleCommands()
    ensures LineCommands("echo hi ; ls ;;  ") == ["echo hi ", " ls "]
  {
    ExampleSegments();
    ExampleBlankness();
    KeepFirstTwo("echo hi ", " ls ", "", "  ");
  }

  lemma ExampleWords()
    ensures SplitWhitespace("echo hi ") == ["echo", "hi"]
    ensures SplitWhitespace(" ls ") == ["ls"]
  {
    assert IsWord("echo") && IsWord("hi") && IsWord("ls") && IsBlank(" ");
    WordsOfTwo("echo", "hi", ' ', " ");
    assert "echo" + [' '] + "hi" + " " == "echo hi ";
    WordThenBlank("ls", " ");
    SplitWhitespaceAt("", ' ', "ls ");
    assert "" + [' '] + "ls " == " ls " && "ls" + " " == "ls ";
  }

  /** The example `echo hi ; ls ;;  `: two commands, the empty and the blank
      segment dropped. */
  lemma SplitExample()
    ensures LineRequests("echo hi ; ls ;;  ") == [Request("echo", ["hi"]), Request("ls", [])]
  {
    ExampleCommands();
    ExampleWords();
    RequestsOfTwo("echo hi ", " ls ");
  }

  /** A fragment without `;` that is not blank is one command. */
  lemma SingleCommand(line: string)
    requires Separator !in line && IsCommand(line)
    ensures LineCommands(line) == [line]
    ensures LineRequests(line) == CommandRequests(line)
  {
    SplitOfPiece(line, Separator);
    KeepOne(line);
    RequestsOfOne(line);
  }

  /** A string that starts with a non-whitespace character is a command. */
  lemma StartsWithWord(line: string)
    requires line != [] && !IsWhitespace(line[0])
    ensures IsCommand(line)
  {
    TrimIsEmptyIffBlank(line);
  }

  /** The requests of two fragments, one after the other. */
  lemma SpawnTraceOfTwo(a: string, b: string)
    ensures SpawnTrace([a, b]) == LineRequests(a) + LineRequests(b)
  {
    var two := [a, b];
    assert two[0] == a && two[1..] == [b];
    assert [b][0] == b && [b][1..] == [];
    assert SpawnTrace([b]) == LineRequests(b) + SpawnTrace([]);
    assert SpawnTrace(two) == LineRequests(a) + SpawnTrace([b]);
  }

  lemma NotJoinedWords()
    ensures SplitWhitespace("ls ") == ["ls"]
    ensures SplitWhitespace("-l") == ["-l"]
    ensures SplitWhitespace("ls -l") == ["ls", "-l"]
  {
    assert IsWord("ls") && IsWord("-l") && IsBlank(" ") && IsBlank("");
    WordThenBlank("ls", " ");
    SplitWhitespaceOfWord("-l");
    WordsOfTwo("ls", "-l", ' ', "");
    assert "ls" + " " == "ls ";
    assert "ls" + [' '] + "-l" + "" == "ls -l";
  }

  /** Two fragments are split and tokenized each on its own: `ls ` and
      `-l` start `ls` and then a program named `-l`, where the joined line
      `ls -l` would have started `ls` with the argument `-l`. */
  lemma FragmentsNotJoined()
    ensures SpawnTrace(["ls ", "-l"]) == [Request("ls", []), Request("-l", [])]
    ensures LineRequests("ls -l") == [Request("ls", ["-l"])]
  {
    StartsWithWord("ls ");
    StartsWithWord("-l");
    StartsWithWord("ls -l");
    SingleCommand("ls ");
    SingleCommand("-l");
    SingleCommand("ls -l");
    NotJoinedWords();
    SpawnTraceOfTwo("ls ", "-l");
  }

  /** A continued line is not joined: the chunks `ls \` and `-l` are read
      as two fragments, which start `ls` and then a program named `-l`,
      where the joined line would have started `ls -l`. */
  lemma ContinuationNotJoined()
    ensures ReadLogicalLine([Ok("ls \\\n"), Ok("-l\n")]).lines == Some(["ls ", "-l"])
    ensures SpawnTrace(["ls ", "-l"]) == [Request("ls", []), Request("-l", [])]
    ensures LineRequests("ls -l") == [Request("ls", ["-l"])]
  {
    ContinuedLine();
    FragmentsNotJoined();
  }
}
