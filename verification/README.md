# sheru shell — a verified model of `Shell`

sheru is a small interactive shell. Its `Shell` (`crates/sheru-cli/src/shell.rs`) prompts
with `sheru $ `, reads one logical line from standard input, splits each fragment of that
line on `;`, splits every non-blank command on whitespace into a program name and its
arguments, and asks the operating system to start that program. This project models
that pipeline and proves what it does.

The project has five modules:

- `Wrappers` (`wrappers.dfy`) holds Rust's `Option`.
- `Text` (`text.dfy`) holds the standard-library string operations the shell relies on, over `seq<char>`:
  - `char::is_whitespace`, given as the exact Unicode White_Space list;
  - `str::strip_suffix`;
  - `str::trim`;
  - `str::split` on a character, with its inverse `Join`;
  - `str::split_whitespace`.
- `LineReading` (`line_reading.dfy`) is the specification of `read_input_atty`. It is a function from the answers `read_line` gives to the fragments of one logical line, plus how many answers were used. `read_line`'s answers are:
  - `Ok(text)`;
  - `Ok([])`, which is Rust's `Ok(0)`, the end of the stream;
  - `Err`.
- `Commands` (`commands.dfy`) is the specification of the rest of the pipeline:
  - the `;` splitter and its filter;
  - the tokenizer that builds the argument vector;
  - the order in which fragments and commands are dispatched.

  A spawn is a `Request(name, args)`. What the shell does with a logical line is the ordered list of requests it makes.
- `Shell` (`shell.dfy`) holds the imperative code as two classes:
  - `Host` stands for the process's surroundings: the answers standard input will give, standard output, standard error, and the requests made to the operating system.
  - `Shell` has the `isatty` flag, fixed when it is made. Its methods have the same loops as the Rust code. Each method is proved to leave `Host` in the state that the `LineReading` and `Commands` functions describe.

What the code does, and does not do:

- There is no `exit` built-in, no search-path resolution and no "command not found" or "failed at executing" diagnostic. The program name goes unchanged to the operating system, and the result of the spawn is ignored.
- Fragments are not joined. Each fragment of a continued line is split and tokenized on its own: the chunks `ls \` and `-l` start `ls` and then a program called `-l` (`ContinuationNotJoined`).
- Non-blank segments are kept untrimmed. Only the whitespace tokenizer removes the surrounding blanks.
- End of input does not end the shell. `start` loops forever, and at the end of input every pass prompts again and reads an empty logical line (`RunOnce`).

## Model

| member | source | states |
|---|---|---|
| Text.IsWhitespace | crates/sheru-cli/src/shell.rs:133 | `char::is_whitespace`, which both `trim` and `split_whitespace` use: exactly the characters with the Unicode White_Space property, given as their list of code points |
| Text.StripSuffix | crates/sheru-cli/src/shell.rs:61-68 | a result exists exactly when the string ends in the character, and then the string is the result followed by that one character |
| Text.TrimStart | crates/sheru-cli/src/shell.rs:133 | `trim_start`; `TrimStartSpec` characterizes it |
| Text.TrimEnd | crates/sheru-cli/src/shell.rs:133 | `trim_end`; `TrimEndSpec` characterizes it |
| Text.Trim | crates/sheru-cli/src/shell.rs:133 | `trim`, the two trims one after the other; `TrimSpec` and `TrimIsEmptyIffBlank` characterize it |
| Text.TrimStartSpec | crates/sheru-cli/src/shell.rs:133 | `trim_start` returns a suffix that does not start with whitespace, and what it drops is all whitespace |
| Text.TrimEndSpec | crates/sheru-cli/src/shell.rs:133 | `trim_end` returns a prefix that does not end with whitespace, and what it drops is all whitespace |
| Text.TrimSpec | crates/sheru-cli/src/shell.rs:133 | `trim` is no longer than its input, and a non-empty result begins and ends with non-whitespace |
| Text.TrimIsEmptyIffBlank | crates/sheru-cli/src/shell.rs:133 | `trim().is_empty()` holds exactly when every character is whitespace |
| Text.Split | crates/sheru-cli/src/shell.rs:132 | `split(';')` gives at least one piece, and no piece contains the separator |
| Text.JoinSplit | crates/sheru-cli/src/shell.rs:132 | joining the pieces with the separator gives back the string: nothing is lost or reordered |
| Text.SplitJoin | crates/sheru-cli/src/shell.rs:132 | splitting a join of separator-free pieces gives back those pieces, so split and join are inverse |
| Text.SplitOfPiece | crates/sheru-cli/src/shell.rs:132 | a string without the separator splits into itself alone |
| Text.SplitAfterPiece | crates/sheru-cli/src/shell.rs:132 | a separator-free piece, the separator and a tail split into that piece followed by the tail's pieces |
| Text.PieceInJoin | crates/sheru-cli/src/shell.rs:132 | every character of a piece occurs in the joined string |
| Text.JoinCharInPiece | crates/sheru-cli/src/shell.rs:132 | every character of the joined string other than the separator lies in some piece |
| Text.WordLength | crates/sheru-cli/src/shell.rs:99 | the first word runs up to the first whitespace character, or to the end |
| Text.SplitWhitespace | crates/sheru-cli/src/shell.rs:99 | every token of `split_whitespace` is non-empty and has no whitespace |
| Text.SplitWhitespaceEmptyIffBlank | crates/sheru-cli/src/shell.rs:99-109 | there are no tokens exactly when the command is all whitespace |
| Text.SplitWhitespaceAt | crates/sheru-cli/src/shell.rs:99 | a whitespace character separates tokens: the tokens of `a w b` are those of `a` followed by those of `b` |
| Text.SplitWhitespaceOfWord | crates/sheru-cli/src/shell.rs:99 | a single word is its own only token |
| Text.SplitWhitespaceOfJoin | crates/sheru-cli/src/shell.rs:99 | words written out with single spaces tokenize back to the same words (round trip) |
| Text.NonWhitespaceOfPrefix | crates/sheru-cli/src/shell.rs:99 | a prefix free of whitespace stays whole in front of the non-whitespace characters of the rest |
| Text.SplitWhitespaceKeepsContent | crates/sheru-cli/src/shell.rs:99-101 | the tokens together hold every non-whitespace character of the command, in order, and nothing else |
| LineReading.StripNewline | crates/sheru-cli/src/shell.rs:61-63 | the chunk without its one trailing newline, if it has one; `Fragment` states what is removed |
| LineReading.Continues | crates/sheru-cli/src/shell.rs:65-68 | the chunk, newline removed, ends in a backslash; `ReadStopsAtFirstStop` shows that reading goes on exactly after such chunks |
| LineReading.Fragment | crates/sheru-cli/src/shell.rs:60-70 | a chunk is its fragment followed by the backslash removed (exactly when the line continues) and the newline removed (exactly when it had one): at most one of each goes |
| LineReading.ReadLogicalLine | crates/sheru-cli/src/shell.rs:49-80 | the reader uses no more answers than there are, and returns at most one fragment per answer used |
| LineReading.ResumeResume | crates/sheru-cli/src/shell.rs:65-68 | resuming twice is resuming once with both gathered lists |
| LineReading.ReadStep | crates/sheru-cli/src/shell.rs:56-75 | an answer that stops reading is the only one used and fails exactly when it is an error; any other is a non-empty chunk whose fragment goes in front of what the following answers give |
| LineReading.ReadStopsAtFirstStop | crates/sheru-cli/src/shell.rs:65-71 | reading goes past an answer only when it is a chunk ending in a backslash, and it stops at the first failure, end of stream or chunk that does not continue |
| LineReading.ReadReturnsFragments | crates/sheru-cli/src/shell.rs:60-70 | a successful read returns exactly one fragment per non-empty chunk used, in order |
| LineReading.ReadFailsOnlyOnError | crates/sheru-cli/src/shell.rs:73-75 | the result is `None` exactly when the last answer used is a read error, and then gathered fragments are dropped |
| LineReading.FirstAnswer | crates/sheru-cli/src/shell.rs:57-58 | end of stream on the first read gives `Some([])`, and a first chunk without a backslash gives one fragment, its newline removed |
| LineReading.ContinuedChunk | crates/sheru-cli/src/shell.rs:61-68 | a chunk ending in a backslash and a newline continues, and its fragment is what comes before the two |
| LineReading.LastChunk | crates/sheru-cli/src/shell.rs:61-71 | a chunk ending in a newline after anything but a backslash ends the line, and its fragment is what comes before the newline |
| LineReading.ReadTwoChunks | crates/sheru-cli/src/shell.rs:53-79 | a continued chunk and then a last chunk are read as their two fragments, using two answers |
| LineReading.ContinuedLine | crates/sheru-cli/src/shell.rs:53-79 | the chunks `ls \` and `-l` are read as the fragments `ls ` and `-l` |
| Commands.KeepCommands | crates/sheru-cli/src/shell.rs:132-138 | every kept segment is one of the segments and is non-blank once trimmed |
| Commands.KeepCommandsAtPositions | crates/sheru-cli/src/shell.rs:132-138 | the kept segments are the segments at the kept positions, one for one and unchanged |
| Commands.CommandPositionsIncrease | crates/sheru-cli/src/shell.rs:132-138 | kept positions are strictly increasing, so the original order is preserved |
| Commands.CommandPositionsAreNonBlank | crates/sheru-cli/src/shell.rs:133-137 | a segment is kept exactly when its trimmed form is not empty |
| Commands.KeepCommandsAppend | crates/sheru-cli/src/shell.rs:132-138 | filtering distributes over concatenation |
| Commands.KeepCommandsSnoc | crates/sheru-cli/src/shell.rs:132-138 | one more segment adds itself to the kept list exactly when it is non-blank |
| Commands.NothingKept | crates/sheru-cli/src/shell.rs:133-135 | when every segment is blank, nothing is kept |
| Commands.LineCommands | crates/sheru-cli/src/shell.rs:129-138 | every command of a fragment is non-blank and contains no `;` |
| Commands.CommandsEmptyIffOnlySeparators | crates/sheru-cli/src/shell.rs:133-135 | a fragment yields no command exactly when it holds nothing but `;` and whitespace |
| Commands.RequestFor | crates/sheru-cli/src/shell.rs:99-113 | the request one command makes: none without tokens, else the first token with the others as arguments; `RequestForSpec` and `RequestForOfWords` characterize it |
| Commands.RequestForSpec | crates/sheru-cli/src/shell.rs:99-113 | a command makes no request exactly when it is blank; otherwise the name and arguments are words holding every non-whitespace character of the command in order |
| Commands.RequestForOfWords | crates/sheru-cli/src/shell.rs:99-113 | a name and arguments written out with spaces give back the same request |
| Commands.Requests | crates/sheru-cli/src/shell.rs:123-127 | the requests of a list of commands, command after command; `RequestsAppend` and `RequestsOfCommands` characterize it |
| Commands.RequestsAppend | crates/sheru-cli/src/shell.rs:123-127 | the requests of two command lists are those of the first followed by those of the second |
| Commands.RequestsSnoc | crates/sheru-cli/src/shell.rs:124-126 | one more command adds exactly its own requests at the end |
| Commands.RequestsOfCommands | crates/sheru-cli/src/shell.rs:123-127 | non-blank commands each make exactly one request, in command order |
| Commands.LineRequests | crates/sheru-cli/src/shell.rs:129-141 | the requests of one fragment: those of its kept commands; `EveryCommandSpawns` characterizes it |
| Commands.EveryCommandSpawns | crates/sheru-cli/src/shell.rs:129-141 | every kept command of a fragment makes exactly one request, in segment order |
| Commands.SpawnTrace | crates/sheru-cli/src/shell.rs:143-147 | the requests of a logical line, fragment after fragment; `SpawnTraceAppend` and `SpawnTraceWellFormed` characterize it |
| Commands.SpawnTraceAppend | crates/sheru-cli/src/shell.rs:143-147 | fragments are processed independently and in order |
| Commands.SpawnTraceSnoc | crates/sheru-cli/src/shell.rs:144-146 | one more fragment adds exactly its own requests at the end |
| Commands.SpawnTraceWellFormed | crates/sheru-cli/src/shell.rs:95-147 | every request names a program and arguments that are non-empty and have no whitespace |
| Commands.SplitExample | crates/sheru-cli/src/shell.rs:129-141 | `echo hi ; ls ;;  ` starts `echo hi` and then `ls`, dropping the empty and the blank segment |
| Commands.SingleCommand | crates/sheru-cli/src/shell.rs:129-141 | a fragment without `;` that is not blank is a single command, kept untrimmed |
| Commands.SpawnTraceOfTwo | crates/sheru-cli/src/shell.rs:143-147 | the requests of two fragments are those of the first followed by those of the second |
| Commands.NotJoinedWords | crates/sheru-cli/src/shell.rs:99 | the tokens of `ls `, `-l` and `ls -l` |
| Commands.FragmentsNotJoined | crates/sheru-cli/src/shell.rs:143-147 | the fragments `ls ` and `-l` start `ls` and then `-l`, where the joined line `ls -l` starts `ls` with the argument `-l` |
| Commands.ContinuationNotJoined | crates/sheru-cli/src/shell.rs:49-147 | the chunks `ls \` and `-l` are read as the fragments `ls ` and `-l`, which start `ls` and then `-l`, not `ls -l` |
| Shell.Host.ReadLine | crates/sheru-cli/src/shell.rs:56 | `read_line` gives the next answer; once the answers are used up, it answers end of stream |
| Shell.Host.Write | crates/sheru-cli/src/shell.rs:36-37 | the text is appended to standard output |
| Shell.Host.WriteErrorLine | crates/sheru-cli/src/shell.rs:155 | the line is appended to standard error |
| Shell.Host.Spawn | crates/sheru-cli/src/shell.rs:112-120 | the request is recorded whether or not the program starts, and the answer says whether it did |
| Shell.Shell.constructor | crates/sheru-cli/src/shell.rs:11-16 | the shell is interactive exactly when standard input and standard output are both terminals |
| Shell.Shell.Prompt | crates/sheru-cli/src/shell.rs:34-39 | the prompt is written exactly when the shell is interactive, and nothing else is written |
| Shell.Shell.PromptInput | crates/sheru-cli/src/shell.rs:41-43 | `sheru $ ` is written exactly when interactive |
| Shell.Shell.PromptLine | crates/sheru-cli/src/shell.rs:45-47 | `sheru > ` is written exactly when interactive |
| Shell.Shell.ReadInputAtty | crates/sheru-cli/src/shell.rs:49-80 | the loop returns what `ReadLogicalLine` gives for the answers standard input had, and uses up exactly the answers that it counts |
| Shell.Shell.ReadInput | crates/sheru-cli/src/shell.rs:82-93 | an interactive shell reads a logical line; otherwise the unfinished raw reader panics and reads nothing |
| Shell.Shell.ProcessInputCommand | crates/sheru-cli/src/shell.rs:95-121 | the command's request, if any, is appended to the spawn trace |
| Shell.Shell.ProcessInputCommands | crates/sheru-cli/src/shell.rs:123-127 | every command's request is appended in order, whatever the earlier spawns answered |
| Shell.Shell.ProcessInputLine | crates/sheru-cli/src/shell.rs:129-141 | the loop keeps exactly the non-blank segments of the fragment, and their requests are appended in order |
| Shell.Shell.ProcessInput | crates/sheru-cli/src/shell.rs:143-147 | the requests of each fragment are appended, fragment after fragment |
| Shell.Shell.RunOnce | crates/sheru-cli/src/shell.rs:149-162 | one pass of the loop: prompt when interactive; then run the logical line, or report `failed at reading input` on a failed read, or panic when not interactive; at the end of input a pass only prompts, so the loop never ends |

## Left out

- Standard input, standard output and standard error are the fields of `Host`, not real streams. `flush` and its `unwrap` (shell.rs:29-32) are not modelled: they are I/O plumbing.
- `atty::is` is a foreign call. It becomes the two constructor parameters.
- The `Mutex<bool>` around `isatty` and its fallback to `false` on a poisoned lock (shell.rs:18-27) are left out. The model has no concurrency, so the lock is never poisoned, and the flag is an immutable `const`.
- Process creation, program lookup and waiting (`Command::new(...).output()`) are foreign calls. A spawn is a recorded `Request`. Whether the program starts is an abstract set of names, `Host.startable`. The shell ignores that answer anyway.
- `read_input_raw` is `todo!()`. The model records only that it panics (the `Panicked` input). Nothing after the panic is modelled.
- Shell.Shell.RunOnce: models one pass of `start`, because the Rust loop never ends. Repeated passes are repeated calls.
- The encoding of what `read_line` reads is not modelled: a chunk is already a sequence of Unicode characters. A read that fails because the bytes are not valid UTF-8 is one of the `Err` answers.
- Shell.Host.ReadLine: a stream whose recorded answers are used up answers end of stream forever, as a closed terminal does. Blocking on a terminal is not modelled.
- `Default for Shell` (shell.rs:165-169) only calls `new`, so it has no separate member.
- The started programs inherit the shell's standard input, output and error (shell.rs:114-116). What they read from and write to those streams is not modelled, so `Host.stdout` and `Host.stderr` hold only what the shell itself writes.
