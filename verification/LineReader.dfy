/** The line buffer of startFootprintProbe in scripts/bench/compare-checkers.ts: the sidecar's output arrives
    in chunks cut anywhere, and is handled line by line. */
module LineReader {
  import opened Sequences
  import opened Text

  /** The lines of `s` that a newline ends. */
  function CompleteLines(s: string): seq<string>
    decreases |s|
  {
    var i := IndexOf(s, '\n');
    if i == |s| then [] else [s[..i]] + CompleteLines(s[i + 1..])
  }

  /** What stands behind the last newline of `s`. */
  function Tail(s: string): string
    decreases |s|
  {
    var i := IndexOf(s, '\n');
    if i == |s| then s else Tail(s[i + 1..])
  }

  function Concat(chunks: seq<string>): string {
    if chunks == [] then "" else Concat(chunks[..|chunks| - 1]) + chunks[|chunks| - 1]
  }

  /** The handler of the probe's output, with its buffer and the lines it has handled. */
  class Reader {
    var buffered: string
    var handled: seq<string>

    constructor ()
      ensures buffered == "" && handled == []
    {
      buffered, handled := "", [];
    }

    method OnData(chunk: string)
      modifies this
      ensures handled == old(handled) + CompleteLines(old(buffered) + chunk)
      ensures buffered == Tail(old(buffered) + chunk)
    {
      buffered := buffered + chunk;
      ghost var text := buffered;
      var newline := IndexOf(buffered, '\n');
      while newline < |buffered|
        invariant newline == IndexOf(buffered, '\n')
        invariant handled + CompleteLines(buffered) == old(handled) + CompleteLines(text)
        invariant Tail(buffered) == Tail(text)
        decreases |buffered|
      {
        var line := buffered[..newline];
        ghost var rest := CompleteLines(buffered[newline + 1..]);
        assert handled + ([line] + rest) == (handled + [line]) + rest;
        buffered := buffered[newline + 1..];
        handled := handled + [line];
        newline := IndexOf(buffered, '\n');
      }
    }
  }

  /** Every chunk of the output, in turn. */
  method HandleOutput(chunks: seq<string>) returns (reader: Reader)
    ensures fresh(reader)
    ensures reader.handled == CompleteLines(Concat(chunks)) && reader.buffered == Tail(Concat(chunks))
  {
    reader := new Reader();
    for i := 0 to |chunks|
      invariant fresh(reader)
      invariant reader.handled == CompleteLines(Concat(chunks[..i])) && reader.buffered == Tail(Concat(chunks[..i]))
    {
      assert chunks[..i + 1][..i] == chunks[..i];
      LinesAcrossChunks(Concat(chunks[..i]), chunks[i]);
      reader.OnData(chunks[i]);
    }
    assert chunks[..|chunks|] == chunks;
  }

  lemma LinesAt(line: string, rest: string)
    requires '\n' !in line
    ensures CompleteLines(line + "\n" + rest) == [line] + CompleteLines(rest)
    ensures Tail(line + "\n" + rest) == Tail(rest)
  {
    var s := line + "\n" + rest;
    assert forall k :: 0 <= k < |line| ==> s[k] == line[k];
    assert s[|line|] == '\n';
    assert IndexOf(s, '\n') == |line|;
    assert s[..|line|] == line && s[|line| + 1..] == rest;
  }

  lemma NoLines(a: string)
    requires '\n' !in a
    ensures CompleteLines(a) == [] && Tail(a) == a
  {
  }

  /** Theorem: handling a chunk on top of what was buffered is handling the whole text: it does not matter where
      the output is cut. */
  lemma {:induction false} LinesAcrossChunks(a: string, b: string)
    ensures CompleteLines(a + b) == CompleteLines(a) + CompleteLines(Tail(a) + b)
    ensures Tail(a + b) == Tail(Tail(a) + b)
    decreases |a|
  {
    if '\n' !in a {
      NoLines(a);
      assert [] + CompleteLines(a + b) == CompleteLines(a + b);
    } else {
      var line, rest := FirstLine(a);
      LinesAcrossChunks(rest, b);
      FirstLineAcross(a, line, rest, b);
      Associates([line], CompleteLines(rest), CompleteLines(Tail(rest) + b));
    }
  }

  lemma FirstLineAcross(a: string, line: string, rest: string, b: string)
    requires a == line + "\n" + rest && '\n' !in line
    ensures CompleteLines(a) == [line] + CompleteLines(rest) && Tail(a) == Tail(rest)
    ensures CompleteLines(a + b) == [line] + CompleteLines(rest + b) && Tail(a + b) == Tail(rest + b)
  {
    LinesAt(line, rest);
    Associates(line + "\n", rest, b);
    LinesAt(line, rest + b);
  }

  /** Theorem: two ways of cutting the same output are handled alike. */
  lemma ChunkingIsInvisible(chunks: seq<string>, chunks': seq<string>)
    requires Concat(chunks) == Concat(chunks')
    ensures ReadAll(chunks) == ReadAll(chunks')
  {
    ReadAllHolds(chunks);
    ReadAllHolds(chunks');
  }

  /** The handled lines and the buffer after each chunk has been handled on its own. */
  function ReadAll(chunks: seq<string>): (seq<string>, string) {
    if chunks == [] then ([], "")
    else
      var (handled, buffered) := ReadAll(chunks[..|chunks| - 1]);
      var text := buffered + chunks[|chunks| - 1];
      (handled + CompleteLines(text), Tail(text))
  }

  lemma {:induction false} ReadAllHolds(chunks: seq<string>)
    ensures ReadAll(chunks) == (CompleteLines(Concat(chunks)), Tail(Concat(chunks)))
  {
    if chunks != [] {
      ReadAllHolds(chunks[..|chunks| - 1]);
      LinesAcrossChunks(Concat(chunks[..|chunks| - 1]), chunks[|chunks| - 1]);
    }
  }

  /** The lines with their newlines put back. */
  function Ended(lines: seq<string>): string {
    if lines == [] then "" else lines[0] + "\n" + Ended(lines[1..])
  }

  /** Theorem: the handled lines and the buffer are the whole output, and neither holds a newline. */
  lemma {:induction false} NothingIsLost(s: string)
    ensures Ended(CompleteLines(s)) + Tail(s) == s
    ensures '\n' !in Tail(s) && forall line :: line in CompleteLines(s) ==> '\n' !in line
    decreases |s|
  {
    if '\n' in s {
      var line, rest := FirstLine(s);
      LinesAt(line, rest);
      NothingIsLost(rest);
      assert CompleteLines(s)[1..] == CompleteLines(rest);
    }
  }
}
