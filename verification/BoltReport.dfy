/** parseBoltOutput of scripts/bench/compare-checkers.ts: reading a graphical diagnostic report line by line. */
module BoltReport {
  import opened Sequences
  import opened Text
  import opened Decimal
  import opened Whitespace
  import opened Templates
  import opened Diagnostics

  datatype BoltDiagnostic = BoltDiagnostic(message: string, fileName: string, line: Option<nat>, column: Option<nat>)

  datatype Location = Location(fileName: string, line: nat, column: nat)

  // ----- the kinds of lines

  /** What `.` does not match. */
  predicate IsTerminator(c: char) { c == '\n' || c == '\r' || c == '\U{2028}' || c == '\U{2029}' }

  predicate SingleLine(s: string) { forall c :: c in s ==> !IsTerminator(c) }

  /** The marks of an error and of a warning. */
  predicate IsMark(c: char) { c == '\U{00D7}' || c == '\U{26A0}' }

  /** `/^  [×⚠] (.*)$/`. */
  function HeadText(line: string): Option<string> {
    if |line| >= 4 && line[..2] == "  " && IsMark(line[2]) && line[3] == ' ' && SingleLine(line[4..])
    then Some(line[4..]) else None
  }

  /** `/^  ☞ /`, or a line that starts with `Advice:`. */
  predicate IsAdvice(line: string) {
    StartsWith(line, "  \U{261E} ") || StartsWith(line, "Advice:")
  }

  /** `/^  │ (.*)$/`. */
  function ContinuationText(line: string): Option<string> {
    if StartsWith(line, "  \U{2502} ") && SingleLine(line[4..]) then Some(line[4..]) else None
  }

  /** `:(\d+):(\d+)\]` at the start of `s`. */
  function MatchTail(s: string): Option<(nat, nat)> {
    if s == "" || s[0] != ':' then None else
      var a := s[1..];
      var n := DigitLength(a);
      var b := a[n..];
      if n == 0 || b == "" || b[0] != ':' then None else
        var c := b[1..];
        var m := DigitLength(c);
        if m == 0 || m >= |c| || c[m] != ']' then None else Some((ParseNat(a[..n]), ParseNat(c[..m])))
  }

  /** The greedy `(.+)` followed by the tail: the longest file name of at most `k` characters that works. */
  function SplitLocation(s: string, k: nat): Option<Location>
    requires k <= |s|
  {
    if k == 0 then None
    else if SingleLine(s[..k]) && MatchTail(s[k..]).Some?
    then Some(Location(s[..k], MatchTail(s[k..]).value.0, MatchTail(s[k..]).value.1))
    else SplitLocation(s, k - 1)
  }

  /** `/╭─\[(.+):(\d+):(\d+)\]/`, found at the first place that works. */
  function MatchLocation(line: string): Option<Location>
    decreases |line|
  {
    if line == "" then None
    else if StartsWith(line, "\U{256D}\U{2500}[") && SplitLocation(line[3..], |line| - 3).Some?
    then SplitLocation(line[3..], |line| - 3)
    else MatchLocation(line[1..])
  }

  datatype BoltLine = Head(text: string) | Advice | Other(continuation: Option<string>, location: Option<Location>)

  function Classify(line: string): BoltLine {
    if HeadText(line).Some? then Head(HeadText(line).value)
    else if IsAdvice(line) then Advice
    else Other(ContinuationText(line), MatchLocation(line))
  }

  // ----- the automaton

  datatype State = State(diagnostics: seq<BoltDiagnostic>, inMessage: bool, inAdvice: bool)

  function Continued(d: BoltDiagnostic, text: string): BoltDiagnostic {
    d.(message := d.message + " " + Trim(text))
  }

  function Located(d: BoltDiagnostic, location: Option<Location>): BoltDiagnostic {
    if location.Some? && d.fileName == ""
    then BoltDiagnostic(d.message, location.value.fileName, Some(location.value.line), Some(location.value.column))
    else d
  }

  /** The list with its last diagnostic, the current one, replaced. */
  function WithCurrent(ds: seq<BoltDiagnostic>, d: BoltDiagnostic): seq<BoltDiagnostic>
    requires ds != []
  {
    ds[..|ds| - 1] + [d]
  }

  function Feed(st: State, line: BoltLine): State {
    match line
    case Head(text) => State(st.diagnostics + [BoltDiagnostic(Trim(text), "", None, None)], true, false)
    case Advice => State(st.diagnostics, false, true)
    case Other(continuation, location) =>
      if st.diagnostics == [] || st.inAdvice then st
      else
        var current := st.diagnostics[|st.diagnostics| - 1];
        if st.inMessage && continuation.Some?
        then st.(diagnostics := WithCurrent(st.diagnostics, Continued(current, continuation.value)))
        else State(WithCurrent(st.diagnostics, Located(current, location)), false, false)
  }

  function FeedAll(lines: seq<BoltLine>): State {
    if lines == [] then State([], false, false) else Feed(FeedAll(lines[..|lines| - 1]), lines[|lines| - 1])
  }

  function ParseReport(output: string): seq<BoltDiagnostic> {
    FeedAll(Map(SplitLines(output), Classify)).diagnostics
  }

  /** parseBoltOutput. */
  method ParseBoltOutput(output: string) returns (diagnostics: seq<BoltDiagnostic>)
    ensures diagnostics == ParseReport(output)
  {
    var lines := SplitLines(output);
    ghost var classified := Map(lines, Classify);
    diagnostics := [];
    var inMessage, inAdvice := false, false;
    for i := 0 to |lines|
      invariant State(diagnostics, inMessage, inAdvice) == FeedAll(classified[..i])
    {
      assert classified[..i + 1][..i] == classified[..i];
      diagnostics, inMessage, inAdvice := HandleLine(lines[i], diagnostics, inMessage, inAdvice);
    }
    assert classified[..|lines|] == classified;
  }

  /** The loop body of parseBoltOutput. */
  method HandleLine(line: string, diagnostics: seq<BoltDiagnostic>, wasInMessage: bool, wasInAdvice: bool)
    returns (result: seq<BoltDiagnostic>, inMessage: bool, inAdvice: bool)
    ensures State(result, inMessage, inAdvice) == Feed(State(diagnostics, wasInMessage, wasInAdvice), Classify(line))
  {
    result, inMessage, inAdvice := diagnostics, wasInMessage, wasInAdvice;
    var head := HeadText(line);
    if head.Some? {
      result := diagnostics + [BoltDiagnostic(Trim(head.value), "", None, None)];
      inMessage, inAdvice := true, false;
      return;
    }
    if IsAdvice(line) {
      inAdvice, inMessage := true, false;
      return;
    }
    if diagnostics == [] || inAdvice {
      return;
    }
    var current := diagnostics[|diagnostics| - 1];
    var continuation := ContinuationText(line);
    if inMessage && continuation.Some? {
      result := WithCurrent(diagnostics, Continued(current, continuation.value));
      return;
    }
    inMessage := false;
    result := WithCurrent(diagnostics, Located(current, MatchLocation(line)));
  }

  // ----- the same, without an automaton

  /** A head line and everything up to the next one. */
  datatype Block = Block(head: string, body: seq<BoltLine>)

  function AddLine(blocks: seq<Block>, line: BoltLine): seq<Block> {
    if line.Head? then blocks + [Block(line.text, [])]
    else if blocks == [] then []
    else
      var last := blocks[|blocks| - 1];
      blocks[..|blocks| - 1] + [Block(last.head, last.body + [line])]
  }

  function Blocks(lines: seq<BoltLine>): seq<Block> {
    if lines == [] then [] else AddLine(Blocks(lines[..|lines| - 1]), lines[|lines| - 1])
  }

  predicate IsContinuation(line: BoltLine) { line.Other? && line.continuation.Some? }

  /** How many continuation lines follow the head immediately. */
  function WrapCount(body: seq<BoltLine>): (n: nat)
    ensures n <= |body|
    ensures forall i :: 0 <= i < n ==> IsContinuation(body[i])
  {
    if body == [] || !IsContinuation(body[0]) then 0 else 1 + WrapCount(body[1..])
  }

  /** The message of a head and its continuation lines. */
  function Message(head: string, continuations: seq<BoltLine>): string
    requires forall i :: 0 <= i < |continuations| ==> IsContinuation(continuations[i])
  {
    if continuations == [] then Trim(head)
    else
      var init, last := continuations[..|continuations| - 1], continuations[|continuations| - 1];
      assert IsContinuation(last);
      Message(head, init) + " " + Trim(last.continuation.value)
  }

  /** The first location before any advice. */
  function FirstLocation(lines: seq<BoltLine>): Option<Location> {
    if lines == [] || lines[0].Advice? then None
    else if lines[0].Other? && lines[0].location.Some? then lines[0].location
    else FirstLocation(lines[1..])
  }

  function DiagnosticOf(b: Block): BoltDiagnostic {
    var n := WrapCount(b.body);
    Located(BoltDiagnostic(Message(b.head, b.body[..n]), "", None, None), FirstLocation(b.body[n..]))
  }

  lemma {:induction false} WrapCountSnoc(body: seq<BoltLine>, line: BoltLine)
    ensures WrapCount(body + [line]) == WrapCount(body) + if WrapCount(body) == |body| && IsContinuation(line) then 1 else 0
  {
    if body != [] && IsContinuation(body[0]) {
      assert (body + [line])[1..] == body[1..] + [line];
      WrapCountSnoc(body[1..], line);
    }
  }

  lemma {:induction false} FirstLocationSnoc(lines: seq<BoltLine>, line: BoltLine)
    requires !line.Head?
    ensures FirstLocation(lines + [line])
         == if FirstLocation(lines).Some? || Advice in lines || line.Advice? then FirstLocation(lines) else line.location
  {
    if lines != [] {
      assert (lines + [line])[1..] == lines[1..] + [line];
      assert Advice in lines <==> lines[0] == Advice || Advice in lines[1..];
      FirstLocationSnoc(lines[1..], line);
    }
  }

  /** A named location names a file. */
  predicate Named(line: BoltLine) { line.Other? && line.location.Some? ==> line.location.value.fileName != "" }

  lemma {:induction false} SplitLocationNamed(s: string, k: nat)
    requires k <= |s|
    ensures SplitLocation(s, k).Some? ==> SplitLocation(s, k).value.fileName != ""
  {
    if k > 0 {
      SplitLocationNamed(s, k - 1);
    }
  }

  lemma {:induction false} MatchLocationNamed(line: string)
    ensures MatchLocation(line).Some? ==> MatchLocation(line).value.fileName != ""
    decreases |line|
  {
    if line != "" {
      if |line| >= 3 {
        SplitLocationNamed(line[3..], |line| - 3);
      }
      MatchLocationNamed(line[1..]);
    }
  }

  lemma {:induction false} FirstLocationNamed(lines: seq<BoltLine>)
    requires forall i :: 0 <= i < |lines| ==> Named(lines[i])
    ensures FirstLocation(lines).Some? ==> FirstLocation(lines).value.fileName != ""
  {
    if lines != [] {
      FirstLocationNamed(lines[1..]);
    }
  }

  lemma ContinuedBlock(b: Block, line: BoltLine)
    requires WrapCount(b.body) == |b.body| && IsContinuation(line)
    ensures Advice !in b.body
    ensures DiagnosticOf(Block(b.head, b.body + [line])) == Continued(DiagnosticOf(b), line.continuation.value)
  {
    var n, body := |b.body|, b.body + [line];
    WrapCountSnoc(b.body, line);
    assert body[..n + 1] == b.body[..n] + [line] && body[n + 1..] == [];
    assert body[..n + 1][..n] == b.body[..n];
    assert forall i :: 0 <= i < n ==> b.body[i] != Advice;
  }

  lemma LocatedBlock(b: Block, line: BoltLine)
    requires !line.Head? && !(WrapCount(b.body) == |b.body| && IsContinuation(line))
    requires forall i :: 0 <= i < |b.body| ==> Named(b.body[i])
    ensures DiagnosticOf(Block(b.head, b.body + [line]))
         == if Advice in b.body || line.Advice? then DiagnosticOf(b) else Located(DiagnosticOf(b), line.location)
  {
    var n, body := WrapCount(b.body), b.body + [line];
    WrapCountSnoc(b.body, line);
    assert body[..n] == b.body[..n] && body[n..] == b.body[n..] + [line];
    assert Advice in b.body <==> Advice in b.body[n..] by {
      assert forall i :: 0 <= i < n ==> b.body[i] != Advice;
      assert b.body == b.body[..n] + b.body[n..];
    }
    FirstLocationSnoc(b.body[n..], line);
    FirstLocationNamed(b.body[n..]);
  }

  /** One more line of a block changes its diagnostic as the automaton does. */
  lemma BlockStep(b: Block, line: BoltLine)
    requires !line.Head? && forall i :: 0 <= i < |b.body| ==> Named(b.body[i])
    ensures var d, d' := DiagnosticOf(b), DiagnosticOf(Block(b.head, b.body + [line]));
            d' == if Advice in b.body || line.Advice? then d
                  else if WrapCount(b.body) == |b.body| && IsContinuation(line) then Continued(d, line.continuation.value)
                  else Located(d, line.location)
  {
    if WrapCount(b.body) == |b.body| && IsContinuation(line) {
      ContinuedBlock(b, line);
    } else {
      LocatedBlock(b, line);
    }
  }

  /** The automaton's state, told from the blocks. */
  ghost predicate Reads(st: State, blocks: seq<Block>) {
    && st.diagnostics == Map(blocks, DiagnosticOf)
    && (blocks != [] ==>
          var body := blocks[|blocks| - 1].body;
          && (forall i :: 0 <= i < |body| ==> Named(body[i]))
          && st.inMessage == (WrapCount(body) == |body|)
          && st.inAdvice == (Advice in body))
  }

  lemma ReadsHead(st: State, blocks: seq<Block>, text: string)
    requires Reads(st, blocks)
    ensures Reads(Feed(st, Head(text)), blocks + [Block(text, [])])
  {
    MapSnoc(blocks, Block(text, []), DiagnosticOf);
    assert DiagnosticOf(Block(text, [])) == BoltDiagnostic(Trim(text), "", None, None);
  }

  /** The automaton on the current diagnostic alone. */
  function Follow(d: BoltDiagnostic, inMessage: bool, inAdvice: bool, line: BoltLine): BoltDiagnostic
    requires !line.Head?
  {
    if inAdvice || line.Advice? then d
    else if inMessage && IsContinuation(line) then Continued(d, line.continuation.value)
    else Located(d, line.location)
  }

  lemma FeedFollows(st: State, line: BoltLine)
    requires st.diagnostics != [] && !line.Head?
    ensures var d := st.diagnostics[|st.diagnostics| - 1];
            Feed(st, line).diagnostics == WithCurrent(st.diagnostics, Follow(d, st.inMessage, st.inAdvice, line))
    ensures Feed(st, line).inAdvice == (st.inAdvice || line.Advice?)
    ensures !(st.inMessage && st.inAdvice) ==> Feed(st, line).inMessage == (st.inMessage && IsContinuation(line))
  {
    assert WithCurrent(st.diagnostics, st.diagnostics[|st.diagnostics| - 1]) == st.diagnostics;
  }

  lemma ReadsBody(st: State, init: seq<Block>, b: Block, line: BoltLine)
    requires Reads(st, init + [b]) && Named(line) && !line.Head?
    ensures Reads(Feed(st, line), init + [Block(b.head, b.body + [line])])
  {
    MapSnoc(init, b, DiagnosticOf);
    MapSnoc(init, Block(b.head, b.body + [line]), DiagnosticOf);
    assert st.diagnostics == Map(init, DiagnosticOf) + [DiagnosticOf(b)];
    NoAdviceWhileWrapping(b.body);
    FeedFollows(st, line);
    BlockStep(b, line);
    WrapCountSnoc(b.body, line);
  }

  lemma ReadsNext(st: State, blocks: seq<Block>, line: BoltLine)
    requires Reads(st, blocks) && Named(line)
    ensures Reads(Feed(st, line), AddLine(blocks, line))
  {
    if line.Head? {
      ReadsHead(st, blocks, line.text);
    } else if blocks != [] {
      assert blocks == blocks[..|blocks| - 1] + [blocks[|blocks| - 1]];
      ReadsBody(st, blocks[..|blocks| - 1], blocks[|blocks| - 1], line);
    }
  }

  lemma NoAdviceWhileWrapping(body: seq<BoltLine>)
    ensures WrapCount(body) == |body| ==> Advice !in body
  {
    assert forall i :: 0 <= i < WrapCount(body) ==> body[i] != Advice;
  }

  lemma {:induction false} ReadsAll(lines: seq<BoltLine>)
    requires forall i :: 0 <= i < |lines| ==> Named(lines[i])
    ensures Reads(FeedAll(lines), Blocks(lines))
  {
    if lines != [] {
      var init := lines[..|lines| - 1];
      ReadsAll(init);
      ReadsNext(FeedAll(init), Blocks(init), lines[|lines| - 1]);
    }
  }

  function HeadCount(lines: seq<BoltLine>): nat {
    if lines == [] then 0 else HeadCount(lines[..|lines| - 1]) + if lines[|lines| - 1].Head? then 1 else 0
  }

  lemma {:induction false} BlockCount(lines: seq<BoltLine>)
    ensures |Blocks(lines)| == HeadCount(lines)
  {
    if lines != [] {
      BlockCount(lines[..|lines| - 1]);
    }
  }

  /** Theorem: a report has one diagnostic for each head line. Its message is the head with the continuation
      lines that follow it, and its place is the first location after those and before any advice. */
  lemma ParseIsBlocks(output: string)
    ensures var lines := Map(SplitLines(output), Classify);
            ParseReport(output) == Map(Blocks(lines), DiagnosticOf) && |ParseReport(output)| == HeadCount(lines)
  {
    var lines := Map(SplitLines(output), Classify);
    forall i | 0 <= i < |lines| ensures Named(lines[i]) {
      MatchLocationNamed(SplitLines(output)[i]);
    }
    ReadsAll(lines);
    BlockCount(lines);
  }

  /** Theorem: advice changes nothing in the diagnostic it follows. */
  lemma {:induction false} AdviceChangesNothing(head: string, body: seq<BoltLine>, more: seq<BoltLine>)
    ensures DiagnosticOf(Block(head, body + [Advice] + more)) == DiagnosticOf(Block(head, body))
  {
    WrapCountAdvice(body, more);
    var n, longer := WrapCount(body), body + [Advice] + more;
    assert longer[..n] == body[..n] && longer[n..] == body[n..] + [Advice] + more;
    FirstLocationAdvice(body[n..], more);
  }

  lemma {:induction false} WrapCountAdvice(body: seq<BoltLine>, more: seq<BoltLine>)
    ensures WrapCount(body + [Advice] + more) == WrapCount(body)
  {
    if body != [] && IsContinuation(body[0]) {
      assert (body + [Advice] + more)[1..] == body[1..] + [Advice] + more;
      WrapCountAdvice(body[1..], more);
    }
  }

  lemma {:induction false} FirstLocationAdvice(lines: seq<BoltLine>, more: seq<BoltLine>)
    ensures FirstLocation(lines + [Advice] + more) == FirstLocation(lines)
  {
    if lines != [] {
      assert (lines + [Advice] + more)[1..] == lines[1..] + [Advice] + more;
      FirstLocationAdvice(lines[1..], more);
    }
  }

  // ----- message wrapping

  function HeadLine(mark: char, text: string): string { "  " + [mark] + " " + text }

  function ContinuationLine(text: string): string { "  \U{2502} " + text }

  /** A message broken into pieces, as the report prints it. */
  function Wrapped(mark: char, pieces: seq<string>): seq<string>
    requires pieces != []
  {
    [HeadLine(mark, pieces[0])] + Map(pieces[1..], ContinuationLine)
  }

  lemma HeadLineClassified(mark: char, text: string)
    requires IsMark(mark) && SingleLine(text)
    ensures Classify(HeadLine(mark, text)) == Head(text)
  {
    assert HeadLine(mark, text)[4..] == text;
  }

  lemma ContinuationLineClassified(text: string)
    requires SingleLine(text)
    ensures IsContinuation(Classify(ContinuationLine(text))) && Classify(ContinuationLine(text)).continuation == Some(text)
  {
    var line := ContinuationLine(text);
    assert line[4..] == text;
    assert line[2] == '\U{2502}' && line[0] == ' ';
    assert "  \U{261E} "[2] != line[2] && "Advice:"[0] != line[0];
  }

  lemma BlocksSnoc(lines: seq<BoltLine>, line: BoltLine)
    ensures Blocks(lines + [line]) == AddLine(Blocks(lines), line)
  {
    assert (lines + [line])[..|lines|] == lines;
  }

  lemma LastBlockGrows(lines: seq<BoltLine>, block: Block, line: BoltLine)
    requires Blocks(lines) == [block] && !line.Head?
    ensures Blocks(lines + [line]) == [Block(block.head, block.body + [line])]
  {
    BlocksSnoc(lines, line);
  }

  lemma {:induction false} BlocksOfBody(text: string, body: seq<BoltLine>)
    requires forall i :: 0 <= i < |body| ==> !body[i].Head?
    ensures Blocks([Head(text)] + body) == [Block(text, body)]
  {
    if body == [] {
      BlocksSnoc([], Head(text));
      assert [] + [Head(text)] == [Head(text)] + body;
    } else {
      var init, last := body[..|body| - 1], body[|body| - 1];
      BlocksOfBody(text, init);
      LastBlockGrows([Head(text)] + init, Block(text, init), last);
      assert body == init + [last];
      assert [Head(text)] + init + [last] == [Head(text)] + body;
    }
  }

  lemma {:induction false} WrapCountOf(continuations: seq<BoltLine>, rest: seq<BoltLine>)
    requires forall i :: 0 <= i < |continuations| ==> IsContinuation(continuations[i])
    requires rest == [] || !IsContinuation(rest[0])
    ensures WrapCount(continuations + rest) == |continuations|
  {
    if continuations == [] {
      assert continuations + rest == rest;
    } else {
      assert (continuations + rest)[1..] == continuations[1..] + rest;
      WrapCountOf(continuations[1..], rest);
    }
  }

  /** The words of a reassembled message are the words of its pieces. */
  lemma {:induction false} MessageWords(head: string, pieces: seq<string>, continuations: seq<BoltLine>)
    requires |pieces| == |continuations|
    requires forall i :: 0 <= i < |pieces| ==> IsContinuation(continuations[i]) && continuations[i].continuation == Some(pieces[i])
    ensures Words(Message(head, continuations)) == Words(Join([head] + pieces, " "))
  {
    if pieces == [] {
      WordsOfTrim(head);
      assert [head] + pieces == [head];
    } else {
      var n := |pieces| - 1;
      MessageWords(head, pieces[..n], continuations[..n]);
      var before, last := Message(head, continuations[..n]), pieces[n];
      WordsAppend(before, ' ', Trim(last));
      WordsOfTrim(last);
      assert ([head] + pieces)[..n + 1] == [head] + pieces[..n];
      WordsAppend(Join([head] + pieces[..n], " "), ' ', last);
    }
  }

  lemma ContinuationsClassified(pieces: seq<string>)
    requires pieces != [] && forall p :: p in pieces ==> SingleLine(p)
    ensures forall i :: 0 <= i < |pieces| - 1 ==>
              var line := Map(Map(pieces[1..], ContinuationLine), Classify)[i];
              IsContinuation(line) && line.continuation == Some(pieces[1..][i])
  {
    forall i | 0 <= i < |pieces| - 1
      ensures IsContinuation(Classify(ContinuationLine(pieces[1..][i])))
           && Classify(ContinuationLine(pieces[1..][i])).continuation == Some(pieces[1..][i]) {
      assert pieces[i + 1] in pieces;
      ContinuationLineClassified(pieces[1..][i]);
    }
  }

  function WrapLines(pieces: seq<string>): seq<BoltLine>
    requires pieces != []
  {
    Map(Map(pieces[1..], ContinuationLine), Classify)
  }

  lemma WrappedBlock(mark: char, pieces: seq<string>, rest: seq<string>)
    requires IsMark(mark) && pieces != [] && forall p :: p in pieces ==> SingleLine(p)
    requires forall i :: 0 <= i < |rest| ==> !Classify(rest[i]).Head?
    ensures Blocks(Map(Wrapped(mark, pieces) + rest, Classify)) == [Block(pieces[0], WrapLines(pieces) + Map(rest, Classify))]
  {
    var body := WrapLines(pieces) + Map(rest, Classify);
    HeadLineClassified(mark, pieces[0]);
    ContinuationsClassified(pieces);
    assert Map(Wrapped(mark, pieces), Classify) == [Head(pieces[0])] + WrapLines(pieces);
    MapAppend(Wrapped(mark, pieces), rest, Classify);
    assert Map(Wrapped(mark, pieces) + rest, Classify) == [Head(pieces[0])] + body;
    forall i | 0 <= i < |body| ensures !body[i].Head? {
      assert i < |pieces| - 1 ==> IsContinuation(WrapLines(pieces)[i]);
    }
    BlocksOfBody(pieces[0], body);
  }

  lemma WrappedWords(head: string, pieces: seq<string>, continuations: seq<BoltLine>, others: seq<BoltLine>)
    requires |pieces| == |continuations|
    requires forall i :: 0 <= i < |pieces| ==> IsContinuation(continuations[i]) && continuations[i].continuation == Some(pieces[i])
    requires others == [] || !IsContinuation(others[0])
    ensures Words(DiagnosticOf(Block(head, continuations + others)).message) == Words(Join([head] + pieces, " "))
  {
    MessageOfWrapped(head, continuations, others);
    MessageWords(head, pieces, continuations);
  }

  lemma PiecesWords(pieces: seq<string>, others: seq<BoltLine>)
    requires pieces != [] && forall p :: p in pieces ==> SingleLine(p)
    requires others == [] || !IsContinuation(others[0])
    ensures Words(DiagnosticOf(Block(pieces[0], WrapLines(pieces) + others)).message) == Words(Join(pieces, " "))
  {
    var rest := pieces[1..];
    assert pieces == [pieces[0]] + rest;
    ContinuationsClassified(pieces);
    WrappedWords(pieces[0], rest, WrapLines(pieces), others);
  }

  /** Theorem: wrapping is invisible. However a message is broken at spaces, and whatever follows it in the
      report, it is reassembled to the same words, so that it gets the code of the unbroken message. */
  lemma WrappingIsInvisible(mark: char, pieces: seq<string>, rest: seq<string>)
    requires IsMark(mark) && pieces != [] && forall p :: p in pieces ==> SingleLine(p)
    requires forall i :: 0 <= i < |rest| ==> !Classify(rest[i]).Head?
    requires rest == [] || !IsContinuation(Classify(rest[0]))
    ensures var ds := Map(Blocks(Map(Wrapped(mark, pieces) + rest, Classify)), DiagnosticOf);
            |ds| == 1 && CollapseWhitespace(ds[0].message) == CollapseWhitespace(Join(pieces, " "))
  {
    var b := Block(pieces[0], WrapLines(pieces) + Map(rest, Classify));
    WrappedBlock(mark, pieces, rest);
    PiecesWords(pieces, Map(rest, Classify));
    SameWordsCollapse(DiagnosticOf(b).message, Join(pieces, " "));
  }

  lemma MessageOfWrapped(head: string, continuations: seq<BoltLine>, others: seq<BoltLine>)
    requires forall i :: 0 <= i < |continuations| ==> IsContinuation(continuations[i])
    requires others == [] || !IsContinuation(others[0])
    ensures DiagnosticOf(Block(head, continuations + others)).message == Message(head, continuations)
  {
    WrapCountOf(continuations, others);
    assert (continuations + others)[..|continuations|] == continuations;
  }

  /** Theorem: so the codes of the broken and of the unbroken message are the same. */
  lemma WrappingKeepsCode(mark: char, pieces: seq<string>, rest: seq<string>, templates: seq<Template>, code: Option<string>, code': Option<string>)
    requires IsMark(mark) && pieces != [] && forall p :: p in pieces ==> SingleLine(p)
    requires forall i :: 0 <= i < |rest| ==> !Classify(rest[i]).Head?
    requires rest == [] || !IsContinuation(Classify(rest[0]))
    requires var ds := Map(Blocks(Map(Wrapped(mark, pieces) + rest, Classify)), DiagnosticOf);
             |ds| == 1 && IsCodeOf(templates, CollapseWhitespace(ds[0].message), code)
    requires IsCodeOf(templates, CollapseWhitespace(Join(pieces, " ")), code')
    ensures code == code'
  {
    WrappingIsInvisible(mark, pieces, rest);
    CodeIsUnique(templates, CollapseWhitespace(Join(pieces, " ")), code, code');
  }

  // ----- diagnostics in a report

  function ParseLines(lines: seq<string>): seq<BoltDiagnostic> {
    Map(Blocks(Map(lines, Classify)), DiagnosticOf)
  }

  lemma {:induction false} BlocksSplit(a: seq<BoltLine>, b: seq<BoltLine>)
    requires b == [] || b[0].Head?
    ensures Blocks(a + b) == Blocks(a) + Blocks(b)
  {
    if b == [] {
      assert a + b == a;
    } else {
      var init, last := b[..|b| - 1], b[|b| - 1];
      assert (a + b)[..|a + b| - 1] == a + init;
      BlocksSplit(a, init);
      if init != [] && !last.Head? {
        BlockCount(init);
        HeadsCounted(init);
        AddLineBehind(Blocks(a), Blocks(init), last);
      }
    }
  }

  lemma {:induction false} HeadsCounted(lines: seq<BoltLine>)
    requires lines != [] && lines[0].Head?
    ensures HeadCount(lines) > 0
  {
    if |lines| > 1 {
      HeadsCounted(lines[..|lines| - 1]);
    }
  }

  lemma AddLineBehind(a: seq<Block>, b: seq<Block>, line: BoltLine)
    requires b != []
    ensures AddLine(a + b, line) == a + AddLine(b, line)
  {
  }

  lemma ParseLinesSplit(a: seq<string>, b: seq<string>)
    requires b == [] || Classify(b[0]).Head?
    ensures ParseLines(a + b) == ParseLines(a) + ParseLines(b)
  {
    MapAppend(a, b, Classify);
    BlocksSplit(Map(a, Classify), Map(b, Classify));
    MapAppend(Blocks(Map(a, Classify)), Blocks(Map(b, Classify)), DiagnosticOf);
  }

  // ----- what each line is, and where a diagnostic is placed, told on the lines themselves

  /** Theorem: the head lines are the marks with a text behind them, and the advice lines those with one of the two
      beginnings. */
  lemma LineKinds(line: string)
    ensures Classify(line).Head? <==> exists mark, text :: IsMark(mark) && SingleLine(text) && line == HeadLine(mark, text)
    ensures Classify(line).Advice? <==> StartsWith(line, "  \U{261E} ") || StartsWith(line, "Advice:")
  {
    if Classify(line).Head? {
      assert line == HeadLine(line[2], line[4..]);
    }
    if mark, text :| IsMark(mark) && SingleLine(text) && line == HeadLine(mark, text) {
      HeadLineClassified(mark, text);
    }
    assert "  \U{261E} "[2] == '\U{261E}' && "Advice:"[0] == 'A';
  }

  /** Theorem: any other line continues a message exactly if it has the bar in front of a text. */
  lemma ContinuationIff(line: string, text: string)
    requires !Classify(line).Head? && !Classify(line).Advice?
    ensures Classify(line).continuation == Some(text) <==> line == ContinuationLine(text) && SingleLine(text)
    ensures Classify(line).location == MatchLocation(line)
  {
    if line == ContinuationLine(text) && SingleLine(text) {
      ContinuationLineClassified(text);
    }
    if Classify(line).continuation == Some(text) {
      assert line[..4] == "  \U{2502} " && line == line[..4] + line[4..];
    }
  }

  /** Neither advice nor a location. */
  predicate Silent(line: string) { !IsAdvice(line) && MatchLocation(line).None? }

  /** Line `j` is the first with a location, and no advice stands before it. */
  predicate FirstPlaceAt(lines: seq<string>, j: nat) {
    && j < |lines| && !IsAdvice(lines[j]) && MatchLocation(lines[j]).Some?
    && forall i :: 0 <= i < j ==> Silent(lines[i])
  }

  /** The diagnostic stands where the first location before any advice says, and nowhere if there is none. */
  ghost predicate PlacedBy(d: BoltDiagnostic, lines: seq<string>) {
    && (forall j: nat :: FirstPlaceAt(lines, j) ==>
          var l := MatchLocation(lines[j]).value;
          d.fileName == l.fileName && d.line == Some(l.line) && d.column == Some(l.column))
    && ((forall j: nat :: !FirstPlaceAt(lines, j)) ==> d.fileName == "" && d.line == None && d.column == None)
  }

  lemma PlaceInRest(lines: seq<string>, i: nat)
    requires lines != []
    ensures !Silent(lines[0]) && i > 0 ==> !FirstPlaceAt(lines, i)
    ensures Silent(lines[0]) ==> (FirstPlaceAt(lines, i) <==> i > 0 && FirstPlaceAt(lines[1..], i - 1))
  {
    if Silent(lines[0]) && i > 0 && FirstPlaceAt(lines[1..], i - 1) {
      assert forall k :: 0 < k < i ==> lines[k] == lines[1..][k - 1];
    }
  }

  lemma {:induction false} FirstPlaceIs(lines: seq<string>) returns (j: nat)
    requires forall i :: 0 <= i < |lines| ==> !Classify(lines[i]).Head?
    ensures FirstLocation(Map(lines, Classify)).Some? ==> FirstPlaceAt(lines, j) && FirstLocation(Map(lines, Classify)) == MatchLocation(lines[j])
    ensures FirstLocation(Map(lines, Classify)).None? ==> forall i: nat :: !FirstPlaceAt(lines, i)
  {
    j := 0;
    if lines != [] {
      assert Map(lines, Classify)[1..] == Map(lines[1..], Classify);
      forall i: nat
        ensures !Silent(lines[0]) && i > 0 ==> !FirstPlaceAt(lines, i)
        ensures Silent(lines[0]) ==> (FirstPlaceAt(lines, i) <==> i > 0 && FirstPlaceAt(lines[1..], i - 1)) {
        PlaceInRest(lines, i);
      }
      if Silent(lines[0]) {
        var k := FirstPlaceIs(lines[1..]);
        j := k + 1;
      }
    }
  }

  lemma OnePlace(lines: seq<string>, i: nat, j: nat)
    requires FirstPlaceAt(lines, i) && FirstPlaceAt(lines, j)
    ensures i == j
  {
  }

  lemma PlacedByFirst(d: BoltDiagnostic, lines: seq<string>)
    requires forall i :: 0 <= i < |lines| ==> !Classify(lines[i]).Head?
    requires d.fileName == "" && d.line == None && d.column == None
    ensures PlacedBy(Located(d, FirstLocation(Map(lines, Classify))), lines)
  {
    var j := FirstPlaceIs(lines);
    forall i: nat | FirstPlaceAt(lines, i) ensures i == j {
      OnePlace(lines, i, j);
    }
  }

  /** The diagnostic of a wrapped message is placed by the lines behind it. */
  lemma WrappedPlaced(pieces: seq<string>, rest: seq<string>)
    requires pieces != [] && forall p :: p in pieces ==> SingleLine(p)
    requires forall i :: 0 <= i < |rest| ==> !Classify(rest[i]).Head?
    requires rest == [] || !IsContinuation(Classify(rest[0]))
    ensures PlacedBy(DiagnosticOf(Block(pieces[0], WrapLines(pieces) + Map(rest, Classify))), rest)
  {
    var others := Map(rest, Classify);
    ContinuationsClassified(pieces);
    WrapCountOf(WrapLines(pieces), others);
    var body := WrapLines(pieces) + others;
    assert body[|WrapLines(pieces)|..] == others;
    PlacedByFirst(BoltDiagnostic(Message(pieces[0], body[..|WrapLines(pieces)|]), "", None, None), rest);
  }

  /** Theorem: anywhere in a report, with whatever line ends, a wrapped message stands for one diagnostic, which has
      the words of the unbroken message and stands where the first location behind it and before any advice says. The
      diagnostics before and after it are left as they are. */
  lemma WrappedInReport(output: string, before: seq<string>, mark: char, pieces: seq<string>, rest: seq<string>,
                        after: seq<string>) returns (d: BoltDiagnostic)
    requires IsMark(mark) && pieces != [] && forall p :: p in pieces ==> SingleLine(p)
    requires forall i :: 0 <= i < |rest| ==> !Classify(rest[i]).Head?
    requires rest == [] || !IsContinuation(Classify(rest[0]))
    requires after == [] || Classify(after[0]).Head?
    requires SplitLines(output) == before + (Wrapped(mark, pieces) + rest) + after
    ensures ParseReport(output) == ParseLines(before) + [d] + ParseLines(after)
    ensures CollapseWhitespace(d.message) == CollapseWhitespace(Join(pieces, " "))
    ensures PlacedBy(d, rest)
  {
    var middle := Wrapped(mark, pieces) + rest;
    ParseIsBlocks(output);
    ParseLinesSplit(before + middle, after);
    HeadLineClassified(mark, pieces[0]);
    ParseLinesSplit(before, middle);
    WrappingIsInvisible(mark, pieces, rest);
    WrappedBlock(mark, pieces, rest);
    WrappedPlaced(pieces, rest);
    d := DiagnosticOf(Block(pieces[0], WrapLines(pieces) + Map(rest, Classify)));
    assert ParseLines(middle) == [d];
  }

  // ----- locations

  function TailText(line: nat, column: nat): string { ":" + (NatText(line) + (":" + (NatText(column) + "]"))) }

  lemma TailMatches(line: nat, column: nat)
    ensures MatchTail(TailText(line, column)) == Some((line, column))
  {
    var l, c := NatText(line), NatText(column);
    var b := ":" + (c + "]");
    assert TailText(line, column)[1..] == l + b;
    DigitsEnd(l, b);
    assert (l + b)[..|l|] == l && (l + b)[|l|..] == b;
    assert b[1..] == c + "]";
    DigitsEnd(c, "]");
    assert (c + "]")[..|c|] == c;
    ParseNatText(line);
    ParseNatText(column);
  }

  /** The tail matches nowhere inside itself. */
  lemma TailMatchesOnce(line: nat, column: nat, j: nat)
    requires 1 <= j <= |TailText(line, column)|
    ensures MatchTail(TailText(line, column)[j..]).None?
  {
    var l, c, tail := NatText(line), NatText(column), TailText(line, column);
    if j == |l| + 1 {
      assert tail[j..] == ":" + (c + "]");
      assert tail[j..][1..] == c + "]";
      DigitsEnd(c, "]");
      assert (c + "]")[|c|..] == "]";
    } else if j < |tail| {
      assert tail[j] == if j <= |l| then l[j - 1] else if j < |l| + 2 + |c| then c[j - |l| - 2] else ']';
      assert j <= |l| ==> tail[j] in l;
      assert |l| + 2 <= j < |l| + 2 + |c| ==> tail[j] in c;
    }
  }

  lemma {:induction false} SplitLocationFinds(file: string, line: nat, column: nat, k: nat)
    requires file != "" && SingleLine(file)
    requires |file| <= k <= |file| + |TailText(line, column)|
    ensures SplitLocation(file + TailText(line, column), k) == Some(Location(file, line, column))
  {
    var tail := TailText(line, column);
    var s := file + tail;
    assert s[k..] == tail[k - |file|..];
    if k == |file| {
      TailMatches(line, column);
      assert s[..k] == file && tail[0..] == tail;
    } else {
      TailMatchesOnce(line, column, k - |file|);
      SplitLocationFinds(file, line, column, k - 1);
    }
  }

  lemma LocationHere(s: string)
    requires SplitLocation(s, |s|).Some?
    ensures MatchLocation("\U{256D}\U{2500}[" + s) == SplitLocation(s, |s|)
  {
    assert ("\U{256D}\U{2500}[" + s)[3..] == s;
  }

  lemma LocationLater(c: char, s: string)
    requires c != '\U{256D}'
    ensures MatchLocation([c] + s) == MatchLocation(s)
  {
    assert ([c] + s)[1..] == s && ([c] + s)[0] == c;
    assert "\U{256D}\U{2500}["[0] == '\U{256D}';
  }

  /** Theorem: a location line gives back the file name, whatever colons it holds, the line and the column. */
  lemma {:induction false} LocationIsRead(indent: string, file: string, line: nat, column: nat)
    requires '\U{256D}' !in indent && file != "" && SingleLine(file)
    ensures MatchLocation(indent + ("\U{256D}\U{2500}[" + (file + TailText(line, column)))) == Some(Location(file, line, column))
    decreases |indent|
  {
    var s := file + TailText(line, column);
    var found := "\U{256D}\U{2500}[" + s;
    if indent == "" {
      assert indent + found == found;
      SplitLocationFinds(file, line, column, |s|);
      LocationHere(s);
    } else {
      assert indent[0] in indent && indent + found == [indent[0]] + (indent[1..] + found);
      LocationLater(indent[0], indent[1..] + found);
      LocationIsRead(indent[1..], file, line, column);
    }
  }

  /** A location as a report prints it. */
  function LocationLine(indent: string, file: string, line: nat, column: nat): string {
    indent + ("\U{256D}\U{2500}[" + (file + TailText(line, column)))
  }

  /** Theorem: what a report prints is read back. A message broken at spaces, then lines that say nothing, then its
      location, then anything up to the next head: the one diagnostic read has the message's words, the file, the
      line and the column. */
  lemma PrintedIsRead(output: string, before: seq<string>, mark: char, pieces: seq<string>, gap: seq<string>,
                      indent: string, file: string, line: nat, column: nat, more: seq<string>, after: seq<string>)
    returns (d: BoltDiagnostic)
    requires IsMark(mark) && pieces != [] && forall p :: p in pieces ==> SingleLine(p)
    requires '\U{256D}' !in indent && file != "" && SingleLine(file)
    requires var rest := gap + [LocationLine(indent, file, line, column)] + more;
             && (forall i :: 0 <= i < |rest| ==> !Classify(rest[i]).Head?) && !IsContinuation(Classify(rest[0]))
             && SplitLines(output) == before + (Wrapped(mark, pieces) + rest) + after
    requires (forall i :: 0 <= i < |gap| ==> Silent(gap[i])) && !IsAdvice(LocationLine(indent, file, line, column))
    requires after == [] || Classify(after[0]).Head?
    ensures ParseReport(output) == ParseLines(before) + [d] + ParseLines(after)
    ensures CollapseWhitespace(d.message) == CollapseWhitespace(Join(pieces, " "))
    ensures d.fileName == file && d.line == Some(line) && d.column == Some(column)
  {
    var rest := gap + [LocationLine(indent, file, line, column)] + more;
    d := WrappedInReport(output, before, mark, pieces, rest, after);
    LocationIsRead(indent, file, line, column);
    assert rest[|gap|] == LocationLine(indent, file, line, column);
    assert forall i :: 0 <= i < |gap| ==> rest[i] == gap[i];
    assert FirstPlaceAt(rest, |gap|);
  }
}
