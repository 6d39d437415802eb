/**
  What `Shell::read_input_atty` computes from the answers standard input
  gives it: the fragments of one logical line, joined by a trailing
  backslash, or a failure when a read fails.
 */
module LineReading {
  import opened Wrappers
  import opened Text

  /** One answer of `read_line`. `Ok(text)` carries what was read; `Ok([])`
      is Rust's `Ok(0)`, the end of the stream. `Err` is a failed read. */
  datatype ReadResult = Ok(text: string) | Err

  const Newline: char := '\n'
  const Continuation: char := '\\'

  /** A chunk without its one trailing newline, if it has one. */
  function StripNewline(chunk: string): string {
    match StripSuffix(chunk, Newline)
    case Some(v) => v
    case None => chunk
  }

  /** The chunk, newline stripped, ends in the continuation backslash. */
  predicate Continues(chunk: string) {
    StripSuffix(StripNewline(chunk), Continuation).Some?
  }

  /** The chunk ends in the character `c`. */
  predicate EndsWith(s: string, c: char) {
    s != [] && s[|s| - 1] == c
  }

  /** The fragment a chunk contributes to the logical line: the chunk is
      the fragment followed by the backslash taken off (exactly when the
      line continues) and the newline taken off (exactly when it had one),
      so at most one of each is removed. */
  function Fragment(chunk: string): (f: string)
    ensures chunk == f + (if Continues(chunk) then [Continuation] else [])
                      + (if EndsWith(chunk, Newline) then [Newline] else [])
  {
    var line := StripNewline(chunk);
    match StripSuffix(line, Continuation)
    case Some(v) => v
    case None => line
  }

  /** Outcome of reading one logical line: the fragments, or `None` when a
      read failed, and how many answers of standard input were used. */
  datatype Reading = Reading(lines: Option<seq<string>>, consumed: nat)

  /** The reader, stated on the answers standard input will give. Once the
      recorded answers run out the stream answers end-of-stream, as a closed
      terminal does, without using up an answer. */
  function ReadLogicalLine(rs: seq<ReadResult>): (r: Reading)
    ensures r.consumed <= |rs|
    ensures r.lines.Some? ==> |r.lines.value| <= r.consumed
    decreases |rs|
  {
    if rs == [] then Reading(Some([]), 0)
    else match rs[0]
      case Err => Reading(None, 1)
      case Ok(chunk) =>
        if chunk == [] then Reading(Some([]), 1)
        else if Continues(chunk) then Resume([Fragment(chunk)], 1, ReadLogicalLine(rs[1..]))
        else Reading(Some([Fragment(chunk)]), 1)
  }

  /** `rest` read after `gathered` fragments and `n` answers. */
  function Resume(gathered: seq<string>, n: nat, rest: Reading): Reading {
    Reading(if rest.lines.Some? then Some(gathered + rest.lines.value) else None, n + rest.consumed)
  }

  lemma ResumeResume(g: seq<string>, n: nat, h: seq<string>, m: nat, rest: Reading)
    ensures Resume(g, n, Resume(h, m, rest)) == Resume(g + h, n + m, rest)
  {
    if rest.lines.Some? {
      assert g + (h + rest.lines.value) == (g + h) + rest.lines.value;
    }
  }

  /** An answer after which reading stops: a failure, the end of the
      stream, or a chunk that does not continue. */
  predicate Stops(r: ReadResult) {
    r.Err? || r.text == [] || !Continues(r.text)
  }

  /** The fragments of the answers `rs`: one per non-empty chunk, in order;
      the end of the stream and failures contribute none. */
  function Fragments(rs: seq<ReadResult>): seq<string>
    decreases |rs|
  {
    if rs == [] then []
    else (if rs[0].Ok? && rs[0].text != [] then [Fragment(rs[0].text)] else []) + Fragments(rs[1..])
  }

  /** One step of the reader: an answer that stops is the only one used;
      any other adds its fragment in front of what the rest gives. */
  lemma ReadStep(rs: seq<ReadResult>)
    requires rs != []
    ensures Stops(rs[0]) ==> ReadLogicalLine(rs).consumed == 1
    ensures Stops(rs[0]) ==> (ReadLogicalLine(rs).lines.None? <==> rs[0].Err?)
    ensures Stops(rs[0]) && rs[0].Ok? ==>
      ReadLogicalLine(rs).lines.value == Fragments([rs[0]])
    ensures !Stops(rs[0]) ==>
      rs[0].Ok? && rs[0].text != [] &&
      ReadLogicalLine(rs) == Resume([Fragment(rs[0].text)], 1, ReadLogicalLine(rs[1..]))
    ensures !Stops(rs[0]) ==> ReadLogicalLine(rs).consumed == 1 + ReadLogicalLine(rs[1..]).consumed
  {
    assert [rs[0]][1..] == [];
  }

  /** Reading goes on past an answer exactly when that answer is a chunk
      that continues: the answers used are those up to and including the
      first that stops, or all of them when none stops. */
  lemma {:induction false} ReadStopsAtFirstStop(rs: seq<ReadResult>)
    ensures var r := ReadLogicalLine(rs);
      && (forall i :: 0 <= i < r.consumed - 1 ==> !Stops(rs[i]))
      && (r.consumed < |rs| ==> 0 < r.consumed && Stops(rs[r.consumed - 1]))
      && (rs != [] ==> 0 < r.consumed)
    decreases |rs|
  {
    if rs != [] {
      ReadStep(rs);
      if !Stops(rs[0]) {
        var rest := rs[1..];
        ReadStopsAtFirstStop(rest);
        var n := ReadLogicalLine(rest).consumed;
        NoStopBefore(rs, n);
        if n + 1 < |rs| {
          assert rs[n] == rest[n - 1];
        }
      }
    }
  }

  /** No answer before position `n` of the tail stops, and the head does
      not stop either: no answer before position `n + 1` stops. */
  lemma NoStopBefore(rs: seq<ReadResult>, n: nat)
    requires rs != [] && !Stops(rs[0]) && n < |rs|
    requires forall i :: 0 <= i < n - 1 ==> !Stops(rs[1..][i])
    ensures forall i :: 0 <= i < n ==> !Stops(rs[i])
  {
    forall i | 0 < i < n ensures !Stops(rs[i]) {
      assert rs[i] == rs[1..][i - 1];
    }
  }

  /** Each non-empty chunk that was read contributes exactly one fragment:
      a successful read returns the fragments of the answers it used. */
  lemma {:induction false} ReadReturnsFragments(rs: seq<ReadResult>)
    ensures var r := ReadLogicalLine(rs);
      r.lines.Some? ==> r.lines.value == Fragments(rs[..r.consumed])
    decreases |rs|
  {
    if rs != [] {
      ReadStep(rs);
      var r := ReadLogicalLine(rs);
      if Stops(rs[0]) {
        assert rs[..r.consumed] == [rs[0]];
      } else {
        var rest := ReadLogicalLine(rs[1..]);
        ReadReturnsFragments(rs[1..]);
        if rest.lines.Some? {
          var head := rs[..r.consumed];
          assert head[0] == rs[0] && head[1..] == rs[1..][..rest.consumed];
          assert Fragments(head) == [Fragment(rs[0].text)] + Fragments(head[1..]);
        }
      }
    }
  }

  /** A failed read discards everything gathered: the result is `None`
      exactly when the last answer used is a failure. */
  lemma {:induction false} ReadFailsOnlyOnError(rs: seq<ReadResult>)
    ensures var r := ReadLogicalLine(rs);
      r.lines.None? <==> (0 < r.consumed && rs[r.consumed - 1].Err?)
    decreases |rs|
  {
    if rs != [] {
      ReadStep(rs);
      if !Stops(rs[0]) {
        var rest := rs[1..];
        ReadFailsOnlyOnError(rest);
        var n := ReadLogicalLine(rest).consumed;
        assert ReadLogicalLine(rs).consumed == n + 1;
        if 0 < n {
          assert rs[n] == rest[n - 1];
        }
      }
    }
  }

  /** End of the stream before any chunk gives a logical line of no
      fragments; a first chunk that does not continue gives exactly one. */
  lemma FirstAnswer(rs: seq<ReadResult>)
    requires rs != [] && rs[0].Ok?
    ensures rs[0].text == [] ==> ReadLogicalLine(rs) == Reading(Some([]), 1)
    ensures rs[0].text != [] && !Continues(rs[0].text) ==>
      ReadLogicalLine(rs) == Reading(Some([StripNewline(rs[0].text)]), 1)
  {
  }

  /** A chunk that ends in a backslash and a newline continues, and its
      fragment is what comes before the two. */
  lemma ContinuedChunk(f: string)
    ensures Continues(f + [Continuation, Newline])
    ensures Fragment(f + [Continuation, Newline]) == f
  {
    var chunk := f + [Continuation, Newline];
    assert chunk[..|chunk| - 1] == f + [Continuation];
    assert (f + [Continuation])[..|f|] == f;
  }

  /** A chunk that ends in a newline after anything but a backslash does
      not continue, and its fragment is what comes before the newline. */
  lemma LastChunk(f: string)
    requires !EndsWith(f, Continuation)
    ensures !Continues(f + [Newline])
    ensures Fragment(f + [Newline]) == f
  {
    var chunk := f + [Newline];
    assert chunk[..|chunk| - 1] == f;
  }

  /** A last chunk on its own: its fragment, one answer used. */
  lemma ReadLastChunk(b: string)
    requires b != [] && !Continues(b)
    ensures ReadLogicalLine([Ok(b)]) == Reading(Some([Fragment(b)]), 1)
  {
  }

  /** A continued chunk followed by a last chunk: both fragments, two
      answers used. */
  lemma ReadTwoChunks(a: string, b: string)
    requires a != [] && Continues(a)
    requires b != [] && !Continues(b)
    ensures ReadLogicalLine([Ok(a), Ok(b)]) == Reading(Some([Fragment(a), Fragment(b)]), 2)
  {
    var rs := [Ok(a), Ok(b)];
    assert rs[0] == Ok(a) && rs[1..] == [Ok(b)];
    ReadLastChunk(b);
    assert ReadLogicalLine(rs) == Resume([Fragment(a)], 1, Reading(Some([Fragment(b)]), 1));
    assert [Fragment(a)] + [Fragment(b)] == [Fragment(a), Fragment(b)];
  }

  /** The chunks `ls \` and `-l`, each ending in a newline, are read as the
      fragments `ls ` and `-l`. */
  lemma ContinuedLine()
    ensures ReadLogicalLine([Ok("ls \\\n"), Ok("-l\n")]) == Reading(Some(["ls ", "-l"]), 2)
  {
    ContinuedChunk("ls ");
    LastChunk("-l");
    assert "ls " + [Continuation, Newline] == "ls \\\n";
    assert "-l" + [Newline] == "-l\n";
    ReadTwoChunks("ls \\\n", "-l\n");
  }
}
