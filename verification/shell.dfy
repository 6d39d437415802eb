/**
  The `Shell` of `crates/sheru-cli/src/shell.rs` and the process it runs in.
  `Host` stands for what the shell reaches through globals: standard input,
  standard output, standard error and the operating system that starts
  programs. Each method of `Shell` is proved to leave `Host` in the state the
  specification functions of `LineReading` and `Commands` describe.
 */
module Shell {
  import opened Wrappers
  import opened Text
  import opened LineReading
  import opened Commands

  /** The prompt before a new command line. */
  const InputPrompt: string := "sheru $ "
  /** The prompt meant for a continued line (the reader never shows it). */
  const LinePrompt: string := "sheru > "
  /** The diagnostic `start` prints when reading fails. */
  const ReadFailure: string := "failed at reading input"

  /** What `read_input` does: return a reading, or panic, which is what the
      unfinished non-interactive reader (`todo!()`) does. */
  datatype Input = Returned(lines: Option<seq<string>>) | Panicked

  /** The process's standard streams and the operating system. */
  class Host {
    /** The answers `read_line` will give, in order. */
    var stdin: seq<ReadResult>
    /** Everything the shell itself writes to standard output (what the
        programs it starts write there is not recorded). */
    var stdout: string
    /** The lines the shell itself writes to standard error. */
    var stderr: seq<string>
    /** The programs the shell asked to start, in order. */
    var spawned: seq<Request>
    /** The program names the operating system manages to start. */
    const startable: set<string>

    constructor (input: seq<ReadResult>, startable: set<string>)
      ensures stdin == input && stdout == [] && stderr == [] && spawned == []
      ensures this.startable == startable
    {
      stdin := input;
      stdout := [];
      stderr := [];
      spawned := [];
      this.startable := startable;
    }

    /** `read_line`: the next answer; a stream whose answers are used up
        stays at its end. */
    method ReadLine() returns (r: ReadResult)
      modifies this`stdin
      ensures old(stdin) == [] ==> r == Ok([]) && stdin == []
      ensures old(stdin) != [] ==> r == old(stdin)[0] && stdin == old(stdin)[1..]
    {
      if stdin == [] {
        r := Ok([]);
      } else {
        r := stdin[0];
        stdin := stdin[1..];
      }
    }

    /** `print!` followed by a flush. */
    method Write(s: string)
      modifies this`stdout
      ensures stdout == old(stdout) + s
    {
      stdout := stdout + s;
    }

    /** `eprintln!`. */
    method WriteErrorLine(line: string)
      modifies this`stderr
      ensures stderr == old(stderr) + [line]
    {
      stderr := stderr + [line];
    }

    /** `Command::new(name).args(args).output()`: the request is made
        whether or not the program can be started; the answer says which.
        The started program shares the shell's streams; what it reads and
        writes there is not recorded. */
    method Spawn(request: Request) returns (started: bool)
      modifies this`spawned
      ensures spawned == old(spawned) + [request]
      ensures started <==> request.name in startable
    {
      spawned := spawned + [request];
      started := request.name in startable;
    }
  }

  class Shell {
    /** Whether standard input and standard output are both terminals,
        fixed when the shell is made. */
    const isatty: bool

    /** `Shell::new`. */
    constructor (stdinIsTerminal: bool, stdoutIsTerminal: bool)
      ensures isatty == (stdinIsTerminal && stdoutIsTerminal)
    {
      isatty := stdinIsTerminal && stdoutIsTerminal;
    }

    /** `prompt`: `s` is written exactly when the shell is interactive. */
    method Prompt(host: Host, s: string)
      modifies host`stdout
      ensures host.stdout == old(host.stdout) + (if isatty then s else [])
    {
      if isatty {
        host.Write(s);
      }
    }

    method PromptInput(host: Host)
      modifies host`stdout
      ensures host.stdout == old(host.stdout) + (if isatty then InputPrompt else [])
    {
      Prompt(host, InputPrompt);
    }

    method PromptLine(host: Host)
      modifies host`stdout
      ensures host.stdout == old(host.stdout) + (if isatty then LinePrompt else [])
    {
      Prompt(host, LinePrompt);
    }

    /** `read_input_atty`: reads chunks until one does not end in a
        backslash, or the stream ends, or a read fails. */
    method ReadInputAtty(host: Host) returns (input: Option<seq<string>>)
      modifies host`stdin
      ensures input == ReadLogicalLine(old(host.stdin)).lines
      ensures host.stdin == old(host.stdin)[ReadLogicalLine(old(host.stdin)).consumed..]
    {
      ghost var all := host.stdin;
      ghost var n := 0;
      var gathered: seq<string> := [];
      assert Resume([], 0, ReadLogicalLine(all)) == ReadLogicalLine(all) by {
        var r := ReadLogicalLine(all);
        if r.lines.Some? { assert [] + r.lines.value == r.lines.value; }
      }
      while true
        invariant n <= |all| && host.stdin == all[n..]
        invariant ReadLogicalLine(all) == Resume(gathered, n, ReadLogicalLine(host.stdin))
        decreases |host.stdin|
      {
        ghost var before := host.stdin;
        var r := host.ReadLine();
        match r {
          case Err =>
            assert before[1..] == all[n + 1..];
            assert ReadLogicalLine(all) == Reading(None, n + 1);
            return None;
          case Ok(buf) =>
            if buf == [] {
              assert gathered + [] == gathered;
              if before != [] {
                assert before[1..] == all[n + 1..];
                n := n + 1;
              }
              assert ReadLogicalLine(all) == Reading(Some(gathered), n);
              break;
            }
            assert before[1..] == all[n + 1..];
            var line := buf;
            match StripSuffix(line, Newline) {
              case Some(v) => line := v;
              case None =>
            }
            match StripSuffix(line, Continuation) {
              case Some(v) =>
                ResumeResume(gathered, n, [v], 1, ReadLogicalLine(host.stdin));
                gathered := gathered + [v];
                n := n + 1;
                continue;
              case None =>
            }
            gathered := gathered + [line];
            n := n + 1;
            assert ReadLogicalLine(all) == Reading(Some(gathered), n);
            break;
        }
      }
      input := Some(gathered);
    }

    /** `read_input`: the interactive reader, or a panic. */
    method ReadInput(host: Host) returns (input: Input)
      modifies host`stdin
      ensures isatty ==>
        && input == Returned(ReadLogicalLine(old(host.stdin)).lines)
        && host.stdin == old(host.stdin)[ReadLogicalLine(old(host.stdin)).consumed..]
      ensures !isatty ==> input == Panicked && host.stdin == old(host.stdin)
    {
      if isatty {
        var lines := ReadInputAtty(host);
        input := Returned(lines);
      } else {
        input := Panicked;
      }
    }

    /** `process_input_command`: splits the command on whitespace and, when
        there is a first token, asks for that program with the other tokens
        as its arguments; whether it starts is ignored. */
    method ProcessInputCommand(host: Host, command: string)
      modifies host`spawned
      ensures host.spawned == old(host.spawned) + CommandRequests(command)
    {
      var args: seq<string> := [];
      var tokens := SplitWhitespace(command);
      for i := 0 to |tokens|
        invariant args == tokens[..i]
      {
        args := args + [tokens[i]];
      }
      assert tokens[..|tokens|] == tokens;
      if args == [] {
        return;
      }
      var name := args[0];
      var started := host.Spawn(Request(name, args[1..]));
    }

    /** `process_input_commands`: every command in turn. */
    method ProcessInputCommands(host: Host, commands: seq<string>)
      modifies host`spawned
      ensures host.spawned == old(host.spawned) + Requests(commands)
    {
      for i := 0 to |commands|
        invariant host.spawned == old(host.spawned) + Requests(commands[..i])
      {
        RequestsSnoc(commands, i);
        ProcessInputCommand(host, commands[i]);
      }
      assert commands[..|commands|] == commands;
    }

    /** `process_input_line`: splits one fragment on `;`, keeps the
        segments that are not blank once trimmed, and runs them. The index
        is not used. */
    method ProcessInputLine(host: Host, index: nat, line: string)
      modifies host`spawned
      ensures host.spawned == old(host.spawned) + LineRequests(line)
    {
      var commands: seq<string> := [];
      var segments := Split(line, Separator);
      for i := 0 to |segments|
        invariant commands == KeepCommands(segments[..i])
        invariant host.spawned == old(host.spawned)
      {
        KeepCommandsSnoc(segments, i);
        var command := segments[i];
        if Trim(command) == [] {
          continue;
        }
        commands := commands + [command];
      }
      assert segments[..|segments|] == segments;
      assert commands == LineCommands(line);
      ProcessInputCommands(host, commands);
    }

    /** `process_input`: every fragment of the logical line in turn, each
        on its own. */
    method ProcessInput(host: Host, lines: seq<string>)
      modifies host`spawned
      ensures host.spawned == old(host.spawned) + SpawnTrace(lines)
    {
      for i := 0 to |lines|
        invariant host.spawned == old(host.spawned) + SpawnTrace(lines[..i])
      {
        ghost var before := host.spawned;
        ProcessInputLine(host, i, lines[i]);
        SpawnTraceStep(lines, i, old(host.spawned), before, host.spawned);
      }
      assert lines[..|lines|] == lines;
    }

    /** One pass of `start`'s endless loop: prompt, read a logical line and
        run it, or report the failed read. The result says whether the pass
        ended in the non-interactive reader's panic. */
    method RunOnce(host: Host) returns (input: Input)
      modifies host`stdin, host`stdout, host`stderr, host`spawned
      ensures host.stdout == old(host.stdout) + (if isatty then InputPrompt else [])
      ensures !isatty ==>
        && input == Panicked
        && host.stdin == old(host.stdin)
        && host.stderr == old(host.stderr)
        && host.spawned == old(host.spawned)
      ensures isatty ==>
        var r := ReadLogicalLine(old(host.stdin));
        && input == Returned(r.lines)
        && host.stdin == old(host.stdin)[r.consumed..]
        && host.stderr == old(host.stderr) + (if r.lines.None? then [ReadFailure] else [])
        && host.spawned == old(host.spawned) + (if r.lines.Some? then SpawnTrace(r.lines.value) else [])
      // At the end of input every pass only prompts again: nothing is read,
      // reported or started, so the endless loop never stops.
      ensures isatty && old(host.stdin) == [] ==>
        && input == Returned(Some([]))
        && host.stdin == []
        && host.stderr == old(host.stderr)
        && host.spawned == old(host.spawned)
    {
      PromptInput(host);
      input := ReadInput(host);
      match input {
        case Panicked =>
        case Returned(None) =>
          host.WriteErrorLine(ReadFailure);
        case Returned(Some(lines)) =>
          ProcessInput(host, lines);
      }
    }
  }
}
