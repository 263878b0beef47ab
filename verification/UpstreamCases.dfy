/** scripts/bench/upstream-cases.ts: splitting a test case into units, and its fingerprint. */
module UpstreamCases {
  import opened Sequences
  import opened Text
  import opened Diagnostics

  // ----- directive lines

  datatype Directive = Directive(name: string, value: string)

  predicate IsWord(c: char) { 'a' <= c <= 'z' || 'A' <= c <= 'Z' || '0' <= c <= '9' || c == '_' }

  /** The length of the longest run of word characters at the start. */
  function WordLength(s: string): (n: nat)
    ensures n <= |s|
  {
    if s != "" && IsWord(s[0]) then 1 + WordLength(s[1..]) else 0
  }

  function UntilLineEnd(s: string): string {
    if s == "" || s[0] == '\r' || s[0] == '\n' then "" else [s[0]] + UntilLineEnd(s[1..])
  }

  /** `directivePattern.exec(line)`, with the value trimmed: two slashes, `@`, a word, a colon, and the rest of
      the line, with white space allowed between them. */
  function MatchDirective(line: string): Option<Directive> {
    if !StartsWith(line, "//") then None else
      var a := TrimStart(line[2..]);
      if a == "" || a[0] != '@' then None else MatchWord(a[1..])
  }

  /** The pattern from the directive's name on. */
  function MatchWord(s: string): Option<Directive> {
    var n := WordLength(s);
    var b := TrimStart(s[n..]);
    if n == 0 || b == "" || b[0] != ':' then None
    else Some(Directive(s[..n], Trim(UntilLineEnd(TrimStart(b[1..])))))
  }

  function LowerChar(c: char): char {
    if 'A' <= c <= 'Z' then (c as int - 'A' as int + 'a' as int) as char else c
  }

  predicate NamesFile(d: Directive) { Map(d.name, LowerChar) == "filename" }

  predicate IsDirective(line: string) { MatchDirective(line).Some? }

  predicate IsSource(line: string) { MatchDirective(line).None? }

  /** What a line is to the splitter: source, a directive that starts a file, or another directive. */
  datatype Line = SourceLine(text: string) | MarkerLine(name: string) | OptionLine(directive: Directive)

  function Classify(line: string): Line {
    match MatchDirective(line)
    case None => SourceLine(line)
    case Some(d) => if NamesFile(d) then MarkerLine(d.value) else OptionLine(d)
  }

  // ----- parseUpstreamCase

  datatype UpstreamFile = UpstreamFile(name: string, content: string)

  datatype ParsedCase = ParsedCase(directives: seq<Directive>, files: seq<UpstreamFile>)

  datatype State = State(
    directives: seq<Directive>,
    files: seq<UpstreamFile>,
    name: Option<string>,
    content: Option<string>
  )

  function Initial(): State { State([], [], None, None) }

  /** The files a state has collected, the current one included. */
  function Collected(st: State): seq<UpstreamFile> {
    if st.name.Some? then st.files + [UpstreamFile(st.name.value, st.content.GetOr(""))] else st.files
  }

  function Feed(st: State, line: Line): State {
    match line
    case SourceLine(text) => st.(content := Some(if st.content.None? then text else st.content.value + "\n" + text))
    case OptionLine(d) => st.(directives := st.directives + [d])
    case MarkerLine(name) => State(st.directives, Collected(st), Some(name), None)
  }

  function FeedAll(st: State, lines: seq<Line>): State {
    if lines == [] then st else Feed(FeedAll(st, lines[..|lines| - 1]), lines[|lines| - 1])
  }

  function Finish(st: State, defaultFileName: string): ParsedCase {
    ParsedCase(st.directives, st.files + [UpstreamFile(st.name.GetOr(defaultFileName), st.content.GetOr(""))])
  }

  function Parse(text: string, defaultFileName: string): ParsedCase {
    Finish(FeedAll(Initial(), Map(SplitLines(text), Classify)), defaultFileName)
  }

  method ParseUpstreamCase(text: string, defaultFileName: string) returns (parsed: ParsedCase)
    ensures parsed == Parse(text, defaultFileName)
  {
    var directives: seq<Directive>, files: seq<UpstreamFile> := [], [];
    var currentName: Option<string>, currentContent: Option<string> := None, None;
    var lines := SplitLines(text);
    ghost var classified := Map(lines, Classify);
    for i := 0 to |lines|
      invariant State(directives, files, currentName, currentContent) == FeedAll(Initial(), classified[..i])
    {
      assert classified[..i + 1][..i] == classified[..i];
      var found := MatchDirective(lines[i]);
      if found.None? {
        currentContent := Some(if currentContent.None? then lines[i] else currentContent.value + "\n" + lines[i]);
        continue;
      }
      if !NamesFile(found.value) {
        directives := directives + [found.value];
        continue;
      }
      if currentName.Some? {
        files := files + [UpstreamFile(currentName.value, currentContent.GetOr(""))];
      }
      currentName := Some(found.value.value);
      currentContent := None;
    }
    assert classified[..|lines|] == classified;
    files := files + [UpstreamFile(currentName.GetOr(defaultFileName), currentContent.GetOr(""))];
    parsed := ParsedCase(directives, files);
  }

  // ----- what the units are

  function AddToSections(sections: seq<seq<string>>, line: Line): (r: seq<seq<string>>)
    requires sections != []
    ensures r != []
  {
    match line
    case SourceLine(text) => sections[..|sections| - 1] + [sections[|sections| - 1] + [text]]
    case MarkerLine(_) => sections + [[]]
    case OptionLine(_) => sections
  }

  /** The source lines before the first marker, and after each marker. */
  function Sections(lines: seq<Line>): (sections: seq<seq<string>>)
    ensures sections != []
  {
    if lines == [] then [[]] else AddToSections(Sections(lines[..|lines| - 1]), lines[|lines| - 1])
  }

  function AddName(names: seq<string>, line: Line): seq<string> {
    if line.MarkerLine? then names + [line.name] else names
  }

  /** The file names of the markers. */
  function MarkerNames(lines: seq<Line>): seq<string> {
    if lines == [] then [] else AddName(MarkerNames(lines[..|lines| - 1]), lines[|lines| - 1])
  }

  function AddOption(options: seq<Directive>, line: Line): seq<Directive> {
    if line.OptionLine? then options + [line.directive] else options
  }

  /** The directives that are no markers. */
  function Options(lines: seq<Line>): seq<Directive> {
    if lines == [] then [] else AddOption(Options(lines[..|lines| - 1]), lines[|lines| - 1])
  }

  function SourceTexts(lines: seq<Line>): seq<string> {
    if lines == [] then []
    else
      var before, last := SourceTexts(lines[..|lines| - 1]), lines[|lines| - 1];
      if last.SourceLine? then before + [last.text] else before
  }

  function Flatten(sections: seq<seq<string>>): seq<string> {
    if sections == [] then [] else Flatten(sections[..|sections| - 1]) + sections[|sections| - 1]
  }

  lemma FlattenSnoc(sections: seq<seq<string>>, section: seq<string>)
    ensures Flatten(sections + [section]) == Flatten(sections) + section
  {
    assert (sections + [section])[..|sections|] == sections;
  }

  /** The sections hold every source line once, in order. */
  lemma {:induction false} SectionsFlatten(lines: seq<Line>)
    ensures Flatten(Sections(lines)) == SourceTexts(lines)
  {
    if lines == [] {
      FlattenSnoc([], []);
      assert [] + [[]] == Sections(lines);
    } else {
      var before, last := Sections(lines[..|lines| - 1]), lines[|lines| - 1];
      SectionsFlatten(lines[..|lines| - 1]);
      if last.MarkerLine? {
        FlattenSnoc(before, []);
      } else if last.SourceLine? {
        var init, section := before[..|before| - 1], before[|before| - 1];
        FlattenSnoc(init, section);
        assert init + [section] == before;
        FlattenSnoc(init, section + [last.text]);
      }
    }
  }

  lemma {:induction false} SourceTextsFilter(lines: seq<string>)
    ensures SourceTexts(Map(lines, Classify)) == Filter(lines, IsSource)
  {
    if lines != [] {
      SourceTextsFilter(lines[..|lines| - 1]);
      assert Map(lines, Classify)[..|lines| - 1] == Map(lines[..|lines| - 1], Classify);
    }
  }

  function Contents(section: seq<string>): Option<string> {
    if section == [] then None else Some(Join(section, "\n"))
  }

  /** The units that are complete before the last marker's: none, if there is at most one marker. */
  function CompleteUnits(names: seq<string>, sections: seq<seq<string>>): seq<UpstreamFile>
    requires |sections| == |names| + 1
  {
    if names == [] then []
    else seq(|names| - 1, i requires 0 <= i < |names| - 1 => UpstreamFile(names[i], Join(sections[i + 1], "\n")))
  }

  lemma ContentsSnoc(section: seq<string>, line: string)
    ensures Contents(section + [line]) == Some(if section == [] then line else Contents(section).value + "\n" + line)
  {
    assert (section + [line])[..|section|] == section;
  }

  ghost predicate Holds(st: State, names: seq<string>, sections: seq<seq<string>>, options: seq<Directive>) {
    && |sections| == |names| + 1
    && st.directives == options
    && st.files == CompleteUnits(names, sections)
    && st.name == (if names == [] then None else Some(names[|names| - 1]))
    && st.content == Contents(sections[|sections| - 1])
  }

  lemma FeedSourceHolds(st: State, names: seq<string>, sections: seq<seq<string>>, options: seq<Directive>, text: string)
    requires sections != [] && Holds(st, names, sections, options)
    ensures Holds(Feed(st, SourceLine(text)), names, AddToSections(sections, SourceLine(text)), options)
  {
    ContentsSnoc(sections[|sections| - 1], text);
    assert CompleteUnits(names, AddToSections(sections, SourceLine(text))) == CompleteUnits(names, sections);
  }

  lemma FeedMarkerHolds(st: State, names: seq<string>, sections: seq<seq<string>>, options: seq<Directive>, name: string)
    requires sections != [] && Holds(st, names, sections, options)
    ensures Holds(Feed(st, MarkerLine(name)), names + [name], sections + [[]], options)
  {
    assert CompleteUnits(names + [name], sections + [[]]) == Collected(st);
  }

  lemma FeedHolds(st: State, names: seq<string>, sections: seq<seq<string>>, options: seq<Directive>, line: Line)
    requires sections != [] && Holds(st, names, sections, options)
    ensures Holds(Feed(st, line), AddName(names, line), AddToSections(sections, line), AddOption(options, line))
  {
    match line {
      case SourceLine(text) => FeedSourceHolds(st, names, sections, options, text);
      case MarkerLine(name) => FeedMarkerHolds(st, names, sections, options, name);
      case OptionLine(_) =>
    }
  }

  lemma {:induction false} FeedAllHolds(lines: seq<Line>)
    ensures Holds(FeedAll(Initial(), lines), MarkerNames(lines), Sections(lines), Options(lines))
  {
    if lines != [] {
      var init := lines[..|lines| - 1];
      FeedAllHolds(init);
      FeedHolds(FeedAll(Initial(), init), MarkerNames(init), Sections(init), Options(init), lines[|lines| - 1]);
    }
  }

  /** Theorem: without a marker a case is one unit with all its source lines; with markers it has one unit for
      each marker, with the source lines up to the next one, and the lines before the first marker are dropped. */
  lemma ParseIsSections(text: string, defaultFileName: string)
    ensures var parsed, lines := Parse(text, defaultFileName), Map(SplitLines(text), Classify);
            var names, sections := MarkerNames(lines), Sections(lines);
            && |sections| == |names| + 1
            && |parsed.files| == Max(1, |names|)
            && parsed.directives == Options(lines)
            && Flatten(sections) == Filter(SplitLines(text), IsSource)
            && (names == [] ==> parsed.files == [UpstreamFile(defaultFileName, Join(sections[0], "\n"))])
            && (forall k :: 0 <= k < |names| ==> parsed.files[k] == UpstreamFile(names[k], Join(sections[k + 1], "\n")))
  {
    var lines := Map(SplitLines(text), Classify);
    SectionsFlatten(lines);
    SourceTextsFilter(SplitLines(text));
    FeedAllHolds(lines);
    FinishHolds(FeedAll(Initial(), lines), MarkerNames(lines), Sections(lines), Options(lines), defaultFileName);
  }

  lemma FinishHolds(st: State, names: seq<string>, sections: seq<seq<string>>, options: seq<Directive>, defaultFileName: string)
    requires Holds(st, names, sections, options)
    ensures var parsed := Finish(st, defaultFileName);
            && |parsed.files| == Max(1, |names|)
            && parsed.directives == options
            && (names == [] ==> parsed.files == [UpstreamFile(defaultFileName, Join(sections[0], "\n"))])
            && (forall k :: 0 <= k < |names| ==> parsed.files[k] == UpstreamFile(names[k], Join(sections[k + 1], "\n")))
  {
  }

  // ----- which lines are directives

  /** The parts of a directive line: white space, the name, white space, white space, and the rest. */
  datatype DirectiveParts = DirectiveParts(blank: string, name: string, gap: string, tail: string) {
    predicate Valid() { AllSpace(blank) && name != "" && (forall c :: c in name ==> IsWord(c)) && AllSpace(gap) }

    function Text(): string { "//" + (blank + ("@" + (name + (gap + (":" + tail))))) }
  }

  lemma {:induction false} WordEnds(word: string, rest: string)
    requires (forall c :: c in word ==> IsWord(c)) && (rest == "" || !IsWord(rest[0]))
    ensures WordLength(word + rest) == |word|
  {
    if word == "" {
      assert word + rest == rest;
    } else {
      assert word[0] in word && (word + rest)[1..] == word[1..] + rest;
      WordEnds(word[1..], rest);
    }
  }

  lemma {:induction false} WordSplits(s: string)
    ensures forall c :: c in s[..WordLength(s)] ==> IsWord(c)
  {
    if s != "" && IsWord(s[0]) {
      WordSplits(s[1..]);
      assert s[..WordLength(s)] == [s[0]] + s[1..][..WordLength(s) - 1];
    }
  }

  lemma GapThenColon(gap: string, tail: string)
    requires AllSpace(gap)
    ensures TrimStart(gap + (":" + tail)) == ":" + tail
    ensures !IsWord((gap + (":" + tail))[0])
  {
    TrimStartOf(gap, ":" + tail);
    if gap != "" {
      assert gap[0] in gap;
    }
  }

  lemma WordMatched(name: string, gap: string, tail: string)
    requires name != "" && (forall c :: c in name ==> IsWord(c)) && AllSpace(gap)
    ensures MatchWord(name + (gap + (":" + tail))) == Some(Directive(name, Trim(UntilLineEnd(TrimStart(tail)))))
  {
    var rest := gap + (":" + tail);
    GapThenColon(gap, tail);
    WordEnds(name, rest);
    assert (name + rest)[..|name|] == name && (name + rest)[|name|..] == rest;
    assert (":" + tail)[1..] == tail;
  }

  lemma PartsMatch(p: DirectiveParts)
    requires p.Valid()
    ensures MatchDirective(p.Text()) == Some(Directive(p.name, Trim(UntilLineEnd(TrimStart(p.tail)))))
  {
    var word := p.name + (p.gap + (":" + p.tail));
    assert p.Text()[2..] == p.blank + ("@" + word);
    TrimStartOf(p.blank, "@" + word);
    assert ("@" + word)[1..] == word;
    WordMatched(p.name, p.gap, p.tail);
  }

  lemma WordHasParts(s: string) returns (name: string, gap: string, tail: string)
    requires MatchWord(s).Some?
    ensures name != "" && (forall c :: c in name ==> IsWord(c)) && AllSpace(gap)
    ensures s == name + (gap + (":" + tail))
  {
    var n := WordLength(s);
    WordSplits(s);
    name := s[..n];
    gap := TrimStartSplit(s[n..]);
    tail := TrimStart(s[n..])[1..];
    assert TrimStart(s[n..]) == ":" + tail;
    assert s == name + s[n..];
  }

  lemma MatchHasParts(line: string) returns (p: DirectiveParts)
    requires IsDirective(line)
    ensures p.Valid() && p.Text() == line
  {
    var blank := TrimStartSplit(line[2..]);
    var word := TrimStart(line[2..])[1..];
    var name, gap, tail := WordHasParts(word);
    p := DirectiveParts(blank, name, gap, tail);
    assert TrimStart(line[2..]) == "@" + word;
    assert line == "//" + line[2..];
  }

  /** Theorem: a line is a directive exactly if it is two slashes, `@`, a word, a colon and a rest, with white space
      allowed around the name; its value is the rest of the line, trimmed. */
  lemma DirectiveIff(line: string)
    ensures IsDirective(line) <==> exists p: DirectiveParts :: p.Valid() && p.Text() == line
    ensures forall p: DirectiveParts :: p.Valid() && p.Text() == line ==>
              MatchDirective(line) == Some(Directive(p.name, Trim(UntilLineEnd(TrimStart(p.tail)))))
  {
    forall p: DirectiveParts | p.Valid() && p.Text() == line
      ensures MatchDirective(line) == Some(Directive(p.name, Trim(UntilLineEnd(TrimStart(p.tail))))) {
      PartsMatch(p);
    }
    if IsDirective(line) {
      var p := MatchHasParts(line);
    }
  }

  lemma {:induction false} UntilLineEndIs(s: string)
    ensures UntilLineEnd(s) <= s && '\r' !in UntilLineEnd(s) && '\n' !in UntilLineEnd(s)
    ensures |UntilLineEnd(s)| < |s| ==> s[|UntilLineEnd(s)|] == '\r' || s[|UntilLineEnd(s)|] == '\n'
  {
    if s != "" {
      UntilLineEndIs(s[1..]);
    }
  }

  /** Theorem: a directive starts a file exactly if its name is `filename`, each letter in either case. */
  lemma NamesFileIff(d: Directive)
    ensures NamesFile(d) <==>
              |d.name| == 8 && forall i :: 0 <= i < 8 ==> d.name[i] == "filename"[i] || d.name[i] == "FILENAME"[i]
  {
    forall i | 0 <= i < 8 && i < |d.name|
      ensures LowerChar(d.name[i]) == "filename"[i] <==> d.name[i] == "filename"[i] || d.name[i] == "FILENAME"[i] {
      LowerIs(d.name[i], "filename"[i], "FILENAME"[i]);
    }
  }

  lemma LowerIs(c: char, small: char, large: char)
    requires 'a' <= small <= 'z' && large as int == small as int - 32
    ensures LowerChar(c) == small <==> c == small || c == large
  {
  }

  // ----- rendering a case

  /** A name or value that a directive line gives back unchanged. */
  predicate PlainValue(s: string) { Trimmed(s) && '\r' !in s && '\n' !in s }

  predicate PlainName(s: string) { s != "" && forall c :: c in s ==> IsWord(c) }

  /** A file content whose lines are source lines and survive joining and splitting. */
  predicate PlainContent(s: string) {
    && Join(SplitLines(s), "\n") == s
    && forall line :: line in SplitLines(s) ==> IsSource(line) && CleanLine(line)
  }

  function DirectiveLine(d: Directive): string { "// @" + d.name + ": " + d.value }

  function RenderFile(f: UpstreamFile): seq<string> {
    [DirectiveLine(Directive("filename", f.name))] + SplitLines(f.content)
  }

  function RenderFiles(files: seq<UpstreamFile>): seq<string> {
    if files == [] then [] else RenderFiles(files[..|files| - 1]) + RenderFile(files[|files| - 1])
  }

  function RenderLines(p: ParsedCase): seq<string> {
    Map(p.directives, DirectiveLine) + RenderFiles(p.files)
  }

  function Render(p: ParsedCase): string { Join(RenderLines(p), "\n") }

  predicate Renderable(p: ParsedCase) {
    && p.files != []
    && (forall d :: d in p.directives ==> PlainName(d.name) && PlainValue(d.value) && !NamesFile(d))
    && PlainFiles(p.files)
  }

  lemma {:induction false} UntilLineEndOf(s: string)
    requires '\r' !in s && '\n' !in s
    ensures UntilLineEnd(s) == s
  {
    if s != "" {
      assert s[0] in s;
      UntilLineEndOf(s[1..]);
    }
  }

  lemma TrimPlain(s: string)
    requires Trimmed(s)
    ensures Trim(s) == s && TrimStart(" " + s) == s
  {
    assert "" + s + "" == s;
    TrimOf("", s, "");
    TrimStartOf(" ", s);
  }

  lemma WordMatches(d: Directive)
    requires PlainName(d.name) && PlainValue(d.value)
    ensures MatchWord(d.name + (": " + d.value)) == Some(d)
  {
    var rest := ": " + d.value;
    WordEnds(d.name, rest);
    assert (d.name + rest)[..|d.name|] == d.name && (d.name + rest)[|d.name|..] == rest;
    assert TrimStart(rest) == rest;
    assert rest[1..] == " " + d.value;
    TrimPlain(d.value);
    UntilLineEndOf(d.value);
  }

  /** A directive line is matched as what it was written from. */
  lemma DirectiveLineMatches(d: Directive)
    requires PlainName(d.name) && PlainValue(d.value)
    ensures MatchDirective(DirectiveLine(d)) == Some(d)
  {
    var word := d.name + (": " + d.value);
    assert DirectiveLine(d)[2..] == " " + ("@" + word);
    TrimStartOf(" ", "@" + word);
    assert ("@" + word)[1..] == word;
    WordMatches(d);
  }

  lemma LineIsClean(d: Directive)
    requires PlainName(d.name) && PlainValue(d.value)
    ensures CleanLine(DirectiveLine(d))
  {
    var line := DirectiveLine(d);
    assert line == "// @" + d.name + (": " + d.value);
    assert '\n' !in d.name;
    assert line[|line| - 1] == if d.value == "" then ' ' else d.value[|d.value| - 1];
  }

  lemma {:induction false} FeedAllAppend(st: State, a: seq<Line>, b: seq<Line>)
    ensures FeedAll(st, a + b) == FeedAll(FeedAll(st, a), b)
  {
    if b == [] {
      assert a + b == a;
    } else {
      assert (a + b)[..|a + b| - 1] == a + b[..|b| - 1];
      FeedAllAppend(st, a, b[..|b| - 1]);
    }
  }

  lemma ClassifyDirective(d: Directive)
    requires PlainName(d.name) && PlainValue(d.value)
    ensures Classify(DirectiveLine(d)) == if NamesFile(d) then MarkerLine(d.value) else OptionLine(d)
    ensures CleanLine(DirectiveLine(d))
  {
    DirectiveLineMatches(d);
    LineIsClean(d);
  }

  function AsOption(d: Directive): Line { OptionLine(d) }

  lemma ClassifyDirectives(directives: seq<Directive>)
    requires forall d :: d in directives ==> PlainName(d.name) && PlainValue(d.value) && !NamesFile(d)
    ensures Map(Map(directives, DirectiveLine), Classify) == Map(directives, AsOption)
    ensures forall line :: line in Map(directives, DirectiveLine) ==> CleanLine(line)
  {
    forall i | 0 <= i < |directives|
      ensures Classify(DirectiveLine(directives[i])) == OptionLine(directives[i]) && CleanLine(DirectiveLine(directives[i])) {
      assert directives[i] in directives;
      ClassifyDirective(directives[i]);
    }
  }

  lemma {:induction false} FeedOptions(directives: seq<Directive>)
    ensures FeedAll(Initial(), Map(directives, AsOption)) == State(directives, [], None, None)
  {
    if directives != [] {
      var init, last := directives[..|directives| - 1], directives[|directives| - 1];
      FeedOptions(init);
      assert directives == init + [last];
      assert Map(directives, AsOption)[..|init|] == Map(init, AsOption);
    }
  }

  function AsSource(line: string): Line { SourceLine(line) }

  lemma {:induction false} FeedContent(st: State, lines: seq<string>)
    requires st.content.None?
    ensures FeedAll(st, Map(lines, AsSource)) == st.(content := Contents(lines))
  {
    if lines != [] {
      var init, last := lines[..|lines| - 1], lines[|lines| - 1];
      FeedContent(st, init);
      assert lines == init + [last];
      assert Map(lines, AsSource)[..|init|] == Map(init, AsSource);
      ContentsSnoc(init, last);
    }
  }

  lemma ClassifyContent(lines: seq<string>)
    requires forall line :: line in lines ==> IsSource(line)
    ensures Map(lines, Classify) == Map(lines, AsSource)
  {
    forall i | 0 <= i < |lines| ensures Classify(lines[i]) == SourceLine(lines[i]) {
      assert lines[i] in lines;
    }
  }

  lemma ClassifyFile(f: UpstreamFile)
    requires PlainFile(f)
    ensures Map(RenderFile(f), Classify) == [MarkerLine(f.name)] + Map(SplitLines(f.content), AsSource)
    ensures forall line :: line in RenderFile(f) ==> CleanLine(line)
  {
    var marker := Directive("filename", f.name);
    assert Map("filename", LowerChar) == "filename";
    ClassifyDirective(marker);
    ClassifyContent(SplitLines(f.content));
    MapAppend([DirectiveLine(marker)], SplitLines(f.content), Classify);
    assert Map([DirectiveLine(marker)], Classify) == [MarkerLine(f.name)];
  }

  lemma FeedFile(st: State, f: UpstreamFile)
    requires PlainFile(f)
    ensures FeedAll(st, Map(RenderFile(f), Classify)) == State(st.directives, Collected(st), Some(f.name), Some(f.content))
  {
    var lines := SplitLines(f.content);
    ClassifyFile(f);
    FeedAllAppend(st, [MarkerLine(f.name)], Map(lines, AsSource));
    assert [MarkerLine(f.name)][..0] == [];
    FeedContent(State(st.directives, Collected(st), Some(f.name), None), lines);
  }

  predicate PlainFile(f: UpstreamFile) { PlainValue(f.name) && PlainContent(f.content) }

  predicate PlainFiles(files: seq<UpstreamFile>) { forall i :: 0 <= i < |files| ==> PlainFile(files[i]) }

  lemma {:induction false} FilesClean(files: seq<UpstreamFile>)
    requires PlainFiles(files)
    ensures forall line :: line in RenderFiles(files) ==> CleanLine(line)
  {
    if files != [] {
      FilesClean(files[..|files| - 1]);
      ClassifyFile(files[|files| - 1]);
    }
  }

  lemma FeedOneMore(st: State, lines: seq<string>, f: UpstreamFile)
    requires PlainFile(f)
    ensures var before := FeedAll(st, Map(lines, Classify));
            FeedAll(st, Map(lines + RenderFile(f), Classify))
            == State(before.directives, Collected(before), Some(f.name), Some(f.content))
  {
    MapAppend(lines, RenderFile(f), Classify);
    FeedAllAppend(st, Map(lines, Classify), Map(RenderFile(f), Classify));
    FeedFile(FeedAll(st, Map(lines, Classify)), f);
  }

  /** The files are collected, behind the directives. */
  predicate Gathered(st: State, directives: seq<Directive>, files: seq<UpstreamFile>) {
    st.directives == directives && Collected(st) == files && (files != [] ==> st.name.Some?)
  }

  lemma GatherOneMore(st: State, lines: seq<string>, directives: seq<Directive>, files: seq<UpstreamFile>, f: UpstreamFile)
    requires PlainFile(f) && Gathered(FeedAll(st, Map(lines, Classify)), directives, files)
    ensures Gathered(FeedAll(st, Map(lines + RenderFile(f), Classify)), directives, files + [f])
  {
    FeedOneMore(st, lines, f);
  }

  lemma {:induction false} FeedFiles(st: State, files: seq<UpstreamFile>)
    requires st.name.None? && st.files == [] && PlainFiles(files)
    ensures Gathered(FeedAll(st, Map(RenderFiles(files), Classify)), st.directives, files)
  {
    if files != [] {
      var init, last := files[..|files| - 1], files[|files| - 1];
      FeedFiles(st, init);
      GatherOneMore(st, RenderFiles(init), st.directives, init, last);
      assert files == init + [last];
    }
  }

  /** Theorem: parsing undoes rendering. */
  lemma ParseUndoesRender(p: ParsedCase, defaultFileName: string)
    requires Renderable(p)
    ensures Parse(Render(p), defaultFileName) == p
  {
    var options, files := Map(p.directives, DirectiveLine), RenderFiles(p.files);
    ClassifyDirectives(p.directives);
    FeedOptions(p.directives);
    FeedFiles(State(p.directives, [], None, None), p.files);
    FilesClean(p.files);
    MapAppend(options, files, Classify);
    FeedAllAppend(Initial(), Map(options, Classify), Map(files, Classify));
    assert files != [] by {
      assert RenderFile(p.files[|p.files| - 1]) != [];
    }
    SplitLinesJoin(options + files);
  }

  // ----- caseFingerprint

  function StripSpaces(s: string): string {
    if s == "" then ""
    else if IsSpace(s[|s| - 1]) then StripSpaces(s[..|s| - 1])
    else StripSpaces(s[..|s| - 1]) + [s[|s| - 1]]
  }

  /** The text that is hashed, from the lines of a case. */
  function BodyOfLines(lines: seq<string>): string { StripSpaces(Join(Filter(lines, IsSource), "")) }

  function Body(text: string): string { BodyOfLines(SplitLines(text)) }

  /** Stripping keeps exactly the characters that are no white space, in order. */
  lemma {:induction false} StripIsFilter(s: string)
    ensures StripSpaces(s) == Filter(s, (c: char) => !IsSpace(c))
  {
    if s != "" {
      StripIsFilter(s[..|s| - 1]);
    }
  }

  lemma {:induction false} StripAppend(a: string, b: string)
    ensures StripSpaces(a + b) == StripSpaces(a) + StripSpaces(b)
  {
    if b == "" {
      assert a + b == a;
    } else {
      assert (a + b)[..|a + b| - 1] == a + b[..|b| - 1];
      StripAppend(a, b[..|b| - 1]);
    }
  }

  lemma BodyAppend(a: seq<string>, b: seq<string>)
    ensures BodyOfLines(a + b) == BodyOfLines(a) + BodyOfLines(b)
  {
    FilterAppend(a, b, IsSource);
    JoinEmptyAppend(Filter(a, IsSource), Filter(b, IsSource));
    StripAppend(Join(Filter(a, IsSource), ""), Join(Filter(b, IsSource), ""));
  }

  lemma BodyOfLine(line: string)
    ensures BodyOfLines([line]) == if IsDirective(line) then "" else StripSpaces(line)
  {
    assert [line][..0] == [];
  }

  /** The body of the lines around one line. */
  lemma BodyAround(a: seq<string>, line: string, b: seq<string>)
    ensures BodyOfLines(a + [line] + b) == BodyOfLines(a) + BodyOfLines([line]) + BodyOfLines(b)
  {
    BodyAppend(a + [line], b);
    BodyAppend(a, [line]);
  }

  lemma DirectiveAmongLines(a: seq<string>, line: string, b: seq<string>)
    requires IsDirective(line)
    ensures BodyOfLines(a + [line] + b) == BodyOfLines(a + b)
  {
    BodyAround(a, line, b);
    BodyOfLine(line);
    BodyAppend(a, b);
    assert BodyOfLines(a) + "" == BodyOfLines(a);
  }

  /** The characters of a line that are no white space. */
  function Ink(line: string): string { Filter(line, (c: char) => !IsSpace(c)) }

  /** What the source lines hold besides white space. */
  function SourceInk(lines: seq<string>): string { Join(Map(Filter(lines, IsSource), Ink), "") }

  lemma SourceInkSnoc(lines: seq<string>, line: string)
    ensures SourceInk(lines + [line]) == SourceInk(lines) + if IsSource(line) then Ink(line) else ""
  {
    assert (lines + [line])[..|lines|] == lines;
    if IsSource(line) {
      MapSnoc(Filter(lines, IsSource), line, Ink);
      JoinEmptyAppend(Map(Filter(lines, IsSource), Ink), [Ink(line)]);
    }
  }

  lemma BodySnoc(lines: seq<string>, line: string)
    ensures BodyOfLines(lines + [line]) == BodyOfLines(lines) + if IsSource(line) then Ink(line) else ""
  {
    BodyAppend(lines, [line]);
    BodyOfLine(line);
    StripIsFilter(line);
  }

  lemma {:induction false} BodyOfLinesIs(lines: seq<string>)
    ensures BodyOfLines(lines) == SourceInk(lines)
  {
    if lines != [] {
      var init, last := lines[..|lines| - 1], lines[|lines| - 1];
      assert lines == init + [last];
      BodyOfLinesIs(init);
      BodySnoc(init, last);
      SourceInkSnoc(init, last);
    }
  }

  /** Theorem: what is hashed is what the source lines hold besides white space. */
  lemma BodyIs(text: string)
    ensures Body(text) == Join(Map(Filter(SplitLines(text), IsSource), Ink), "")
  {
    BodyOfLinesIs(SplitLines(text));
  }

  /** Theorem: inserting or removing a directive line does not change the fingerprint, wherever it stands and
      whatever the line ends are. A text of which it is the only line has the fingerprint of the empty text. */
  lemma DirectivesDoNotCount(text: string, text': string, a: seq<string>, line: string, b: seq<string>)
    requires IsDirective(line) && SplitLines(text) == a + [line] + b
    ensures SplitLines(text') == a + b ==> Body(text) == Body(text')
    ensures a + b == [] ==> Body(text) == "" == Body("")
  {
    DirectiveAmongLines(a, line, b);
    SplitLinesWhole("");
    BodyOfLine("");
  }

  /** Theorem: with its line end, a directive can be taken out of a text at any place before the last line, and as
      the last line with the line end before it. */
  lemma DirectiveTakenOut(a: seq<EndedLine>, x: EndedLine, b: seq<EndedLine>, last: string)
    requires Assembled(a + [x] + b, last)
    ensures IsDirective(x.line) ==> Body(Assemble(a + [x] + b, last)) == Body(Assemble(a + b, last))
    ensures b == [] && IsDirective(last) ==> Body(Assemble(a + [x], last)) == Body(Assemble(a, x.line))
  {
    var before, after := Map(a, LineOf), Map(b, LineOf);
    PartsAssembled(a, x, b, last);
    SplitLinesAssemble(a + [x] + b, last);
    SplitLinesAssemble(a + b, last);
    MapAppend(a + [x], b, LineOf);
    MapAppend(a, [x], LineOf);
    MapAppend(a, b, LineOf);
    assert Map([x], LineOf) == [x.line];
    if IsDirective(x.line) {
      assert before + [x.line] + after + [last] == before + [x.line] + (after + [last]);
      assert before + after + [last] == before + (after + [last]);
      DirectiveAmongLines(before, x.line, after + [last]);
    }
    if b == [] && IsDirective(last) {
      assert a + [x] + b == a + [x];
      SplitLinesAssemble(a, x.line);
      DirectiveAmongLines(before + [x.line], last, []);
      assert before + [x.line] + [last] + [] == before + [x.line] + after + [last];
      assert before + [x.line] + [] == before + [x.line];
    }
  }

  lemma PartsAssembled(a: seq<EndedLine>, x: EndedLine, b: seq<EndedLine>, last: string)
    requires Assembled(a + [x] + b, last)
    ensures Assembled(a + b, last) && Assembled(a, x.line)
  {
    var s := a + [x] + b;
    assert s[|a|] == x;
    assert forall i :: 0 <= i < |a| ==> s[i] == a[i];
    assert forall i :: 0 <= i < |b| ==> s[|a| + 1 + i] == b[i];
  }

  lemma StripKeepsSlashes(line: string)
    requires IsDirective(line)
    ensures StripSpaces(line) != ""
  {
    assert line == "/" + line[1..];
    StripAppend("/", line[1..]);
    assert "/"[..0] == "";
  }

  lemma MiddleDecides(a: string, x: string, y: string, b: string)
    requires x == "" || y == "" || x == y
    ensures a + x + b == a + y + b <==> x == y
  {
    assert |a + x + b| == |a| + |x| + |b| && |a + y + b| == |a| + |y| + |b|;
  }

  /** Theorem: a change of white space within one line, be it the first, the last or one between, leaves the
      fingerprint alone exactly when the line does not turn from a directive into source or back. */
  lemma ReindentingKeepsBody(text: string, text': string, a: seq<string>, line: string, line': string, b: seq<string>)
    requires SplitLines(text) == a + [line] + b && SplitLines(text') == a + [line'] + b
    requires StripSpaces(line) == StripSpaces(line')
    ensures Body(text) == Body(text') <==> (IsDirective(line) <==> IsDirective(line'))
  {
    BodyAround(a, line, b);
    BodyAround(a, line', b);
    BodyOfLine(line);
    BodyOfLine(line');
    if IsDirective(line) {
      StripKeepsSlashes(line);
    }
    if IsDirective(line') {
      StripKeepsSlashes(line');
    }
    MiddleDecides(BodyOfLines(a), BodyOfLines([line]), BodyOfLines([line']), BodyOfLines(b));
  }

  /** The two lines differ in white space only and are both directives or both source. */
  predicate Reindented(line: string, line': string) {
    StripSpaces(line) == StripSpaces(line') && (IsDirective(line) <==> IsDirective(line'))
  }

  lemma BodyOfLast(lines: seq<string>)
    requires lines != []
    ensures var n := |lines| - 1;
            BodyOfLines(lines) == BodyOfLines(lines[..n]) + if IsDirective(lines[n]) then "" else StripSpaces(lines[n])
  {
    var n := |lines| - 1;
    BodyAppend(lines[..n], [lines[n]]);
    BodyOfLine(lines[n]);
    assert lines == lines[..n] + [lines[n]];
  }

  lemma {:induction false} ReindentedLines(lines: seq<string>, lines': seq<string>)
    requires |lines| == |lines'| && forall i :: 0 <= i < |lines| ==> Reindented(lines[i], lines'[i])
    ensures BodyOfLines(lines) == BodyOfLines(lines')
  {
    if lines != [] {
      var n := |lines| - 1;
      assert Reindented(lines[n], lines'[n]);
      ReindentedLines(lines[..n], lines'[..n]);
      BodyOfLast(lines);
      BodyOfLast(lines');
    }
  }

  /** Theorem: re-indenting any number of lines leaves the fingerprint alone if every line keeps its kind. */
  lemma ReindentedTextKeepsBody(text: string, text': string)
    requires |SplitLines(text)| == |SplitLines(text')|
    requires forall i :: 0 <= i < |SplitLines(text)| ==> Reindented(SplitLines(text)[i], SplitLines(text')[i])
    ensures Body(text) == Body(text')
  {
    ReindentedLines(SplitLines(text), SplitLines(text'));
  }

  /** Indenting a directive line, wherever it stands, turns it into source, so the fingerprint changes although only
      white space did. */
  lemma IndentedDirectiveCounts(text: string, text': string, a: seq<string>, line: string, b: seq<string>)
    requires IsDirective(line) && SplitLines(text) == a + [line] + b && SplitLines(text') == a + [" " + line] + b
    ensures StripSpaces(" " + line) == StripSpaces(line)
    ensures Body(text) != Body(text')
  {
    StripAppend(" ", line);
    assert " "[..0] == "";
    assert (" " + line)[0] == ' ' && line[0] == '/';
    ReindentingKeepsBody(text, text', a, line, " " + line, b);
  }
}
