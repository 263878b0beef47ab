/** compare of scripts/api/compare-tree-walk.ts: two walks aligned modulo the known differences. */
module TreeCompare {
  import opened Sequences
  import opened Decimal
  import opened Text
  import opened Diagnostics
  import opened TreeWalk

  datatype Known = NestedNamespaceExport | ArrayBindingElision | JsxTextStart

  /** The regular expression `^ExportKeyword (\d+) (\d+)$` with two equal groups. */
  predicate ImplicitExport(line: string) {
    var fields := SplitOn(line, ' ');
    |fields| == 3 && fields[0] == "ExportKeyword" && fields[1] != "" && AllDigits(fields[1]) && fields[1] == fields[2]
  }

  predicate EndsInModule(lines: seq<string>) {
    lines != [] && StartsWith(lines[|lines| - 1], "ModuleDeclaration ")
  }

  /** The crate's lines without the implicit exports of nested namespaces. */
  function Kept(lines: seq<string>): seq<string> {
    if lines == [] then []
    else
      var before, line := Kept(lines[..|lines| - 1]), lines[|lines| - 1];
      if ImplicitExport(line) && EndsInModule(before) then before else before + [line]
  }

  function FieldAt(line: string, k: nat): Option<string> {
    if k < |SplitOn(line, ' ')| then Some(SplitOn(line, ' ')[k]) else None
  }

  /** A nameless BindingElement in the place of an OmittedExpression. */
  predicate Elision(ours: string, theirs: string) {
    && FieldAt(ours, 0) == Some("BindingElement") && FieldAt(theirs, 0) == Some("OmittedExpression")
    && FieldAt(ours, 1) == FieldAt(theirs, 1) && FieldAt(ours, 2) == FieldAt(theirs, 2)
  }

  /** A JsxText that starts at its full start. `number` is JavaScript's Number, None for what is no integer. */
  predicate JsxStart(ours: string, theirs: string, fullStart: int, number: string -> Option<int>) {
    && FieldAt(ours, 0) == Some("JsxText") && FieldAt(theirs, 0) == Some("JsxText")
    && FieldAt(ours, 2) == FieldAt(theirs, 2)
    && FieldAt(ours, 1).Some? && number(FieldAt(ours, 1).value) == Some(fullStart)
  }

  datatype Verdict = Same | Substituted(known: Known) | Different

  function Judge(ours: string, theirs: string, fullStart: int, number: string -> Option<int>): Verdict {
    if ours == theirs then Same
    else if Elision(ours, theirs) then Substituted(ArrayBindingElision)
    else if JsxStart(ours, theirs, fullStart, number) then Substituted(JsxTextStart)
    else Different
  }

  /** The verdict on every position of the two lists; one beyond the end of a list is different. */
  function Verdicts(lines: seq<string>, walk: Walk, number: string -> Option<int>): seq<Verdict>
    requires |walk.fullStarts| == |walk.lines|
  {
    seq(Max(|lines|, |walk.lines|), i requires 0 <= i < Max(|lines|, |walk.lines|) =>
      if i < |lines| && i < |walk.lines| then Judge(lines[i], walk.lines[i], walk.fullStarts[i], number) else Different)
  }

  function CountOf(known: map<Known, nat>, name: Known): nat {
    if name in known then known[name] else 0
  }

  function Increment(known: map<Known, nat>, name: Known): map<Known, nat> {
    known[name := CountOf(known, name) + 1]
  }

  datatype Comparison = Comparison(known: map<Known, nat>, mismatchAt: Option<nat>, crateLines: seq<string>)

  ghost predicate CountsOnly(known: map<Known, nat>) { forall name :: name in known ==> known[name] > 0 }

  /** The known differences that are counted: the dropped lines, and the substitutions among `verdicts`. */
  ghost predicate Counts(known: map<Known, nat>, dropped: int, verdicts: seq<Verdict>) {
    && CountsOnly(known)
    && CountOf(known, NestedNamespaceExport) == dropped + multiset(verdicts)[Substituted(NestedNamespaceExport)]
    && CountOf(known, ArrayBindingElision) == multiset(verdicts)[Substituted(ArrayBindingElision)]
    && CountOf(known, JsxTextStart) == multiset(verdicts)[Substituted(JsxTextStart)]
  }

  /** What compare reports: the lines kept, the least position that is not excused, if any, and the exact number
      of dropped lines and of substitutions before that position. */
  ghost predicate ResultOf(result: Comparison, crateLines: seq<string>, walk: Walk, number: string -> Option<int>)
    requires |walk.fullStarts| == |walk.lines|
  {
    var lines := Kept(crateLines);
    var verdicts := Verdicts(lines, walk, number);
    && result.crateLines == lines
    && (result.mismatchAt.Some? ==> result.mismatchAt.value < |verdicts| && verdicts[result.mismatchAt.value] == Different)
    && var excused := verdicts[..result.mismatchAt.GetOr(|verdicts|)];
       Different !in excused && Counts(result.known, |crateLines| - |lines|, excused)
  }

  /** The first loop of compare. */
  method DropImplicitExports(crateLines: seq<string>) returns (lines: seq<string>, known: map<Known, nat>)
    ensures lines == Kept(crateLines)
    ensures Counts(known, |crateLines| - |lines|, [])
  {
    lines, known := [], map[];
    for i := 0 to |crateLines|
      invariant lines == Kept(crateLines[..i])
      invariant Counts(known, i - |lines|, [])
    {
      assert crateLines[..i + 1][..i] == crateLines[..i];
      if ImplicitExport(crateLines[i]) && EndsInModule(lines) {
        known := Increment(known, NestedNamespaceExport);
        continue;
      }
      lines := lines + [crateLines[i]];
    }
    assert crateLines[..|crateLines|] == crateLines;
  }

  lemma CountsNext(known: map<Known, nat>, dropped: int, verdicts: seq<Verdict>, i: nat)
    requires i < |verdicts| && Counts(known, dropped, verdicts[..i])
    requires Different !in verdicts[..i]
    ensures verdicts[i] != Different ==> Different !in verdicts[..i + 1]
    ensures verdicts[i] == Same ==> Counts(known, dropped, verdicts[..i + 1])
    ensures verdicts[i].Substituted? ==> Counts(Increment(known, verdicts[i].known), dropped, verdicts[..i + 1])
  {
    assert verdicts[..i + 1] == verdicts[..i] + [verdicts[i]];
  }

  /** The tests of the second loop, in their order. */
  method Examine(ours: string, theirs: string, fullStart: int, number: string -> Option<int>) returns (verdict: Verdict)
    ensures verdict == Judge(ours, theirs, fullStart, number)
  {
    if ours == theirs {
      return Same;
    }
    if Elision(ours, theirs) {
      return Substituted(ArrayBindingElision);
    }
    if JsxStart(ours, theirs, fullStart, number) {
      return Substituted(JsxTextStart);
    }
    return Different;
  }

  method ExamineAt(lines: seq<string>, walk: Walk, i: nat, number: string -> Option<int>) returns (verdict: Verdict)
    requires |walk.fullStarts| == |walk.lines| && i < Max(|lines|, |walk.lines|)
    ensures verdict == Verdicts(lines, walk, number)[i]
  {
    verdict := Different;
    if i < |lines| && i < |walk.lines| {
      verdict := Examine(lines[i], walk.lines[i], walk.fullStarts[i], number);
    }
  }

  method Compare(crateLines: seq<string>, walk: Walk, number: string -> Option<int>) returns (result: Comparison)
    requires |walk.fullStarts| == |walk.lines|
    ensures ResultOf(result, crateLines, walk, number)
  {
    var lines, known := DropImplicitExports(crateLines);
    var mismatchAt;
    mismatchAt, known := Align(lines, walk, number, known, |crateLines| - |lines|, Verdicts(lines, walk, number));
    result := Comparison(known, mismatchAt, lines);
  }

  /** The second loop of compare. */
  method Align(lines: seq<string>, walk: Walk, number: string -> Option<int>, dropKnown: map<Known, nat>,
               ghost dropped: int, ghost verdicts: seq<Verdict>)
    returns (mismatchAt: Option<nat>, known: map<Known, nat>)
    requires |walk.fullStarts| == |walk.lines| && verdicts == Verdicts(lines, walk, number)
    requires Counts(dropKnown, dropped, [])
    ensures mismatchAt.Some? ==> mismatchAt.value < |verdicts| && verdicts[mismatchAt.value] == Different
    ensures var excused := verdicts[..mismatchAt.GetOr(|verdicts|)];
            Different !in excused && Counts(known, dropped, excused)
  {
    mismatchAt, known := None, dropKnown;
    var length := Max(|lines|, |walk.lines|);
    var i := 0;
    while i < length && mismatchAt.None?
      invariant 0 <= i <= length == |verdicts|
      invariant mismatchAt.Some? ==> mismatchAt.value < length && verdicts[mismatchAt.value] == Different
      invariant Different !in verdicts[..mismatchAt.GetOr(i)] && Counts(known, dropped, verdicts[..mismatchAt.GetOr(i)])
      decreases length - i
    {
      var verdict := ExamineAt(lines, walk, i, number);
      CountsNext(known, dropped, verdicts, i);
      if verdict == Different {
        mismatchAt := Some(i);
      } else if verdict.Substituted? {
        known := Increment(known, verdict.known);
      }
      i := i + 1;
    }
  }

  // ----- what the comparison means

  /** Theorem: dropping the implicit exports once drops them all. */
  lemma {:induction false} KeptIsIdempotent(lines: seq<string>)
    ensures Kept(Kept(lines)) == Kept(lines)
  {
    if lines != [] {
      var before, line := Kept(lines[..|lines| - 1]), lines[|lines| - 1];
      KeptIsIdempotent(lines[..|lines| - 1]);
      if !(ImplicitExport(line) && EndsInModule(before)) {
        assert (before + [line])[..|before|] == before;
      }
    }
  }

  lemma {:induction false} KeptLength(lines: seq<string>)
    ensures |Kept(lines)| <= |lines|
    ensures |Kept(lines)| == |lines| ==> Kept(lines) == lines
  {
    if lines != [] {
      var init, line := lines[..|lines| - 1], lines[|lines| - 1];
      KeptLength(init);
      assert Kept(lines) == Kept(init) || Kept(lines) == Kept(init) + [line];
      assert lines == init + [line];
    }
  }

  lemma LengthsDiffer(lines: seq<string>, walk: Walk, number: string -> Option<int>)
    requires |walk.fullStarts| == |walk.lines| != |lines|
    ensures Different in Verdicts(lines, walk, number)
  {
    assert Verdicts(lines, walk, number)[Min(|lines|, |walk.lines|)] == Different;
  }

  /** Theorem: without a mismatch the walks are equally long, and each pair of lines is equal or one of the two
      known substitutions. */
  lemma NoMismatchAligns(crateLines: seq<string>, walk: Walk, number: string -> Option<int>, result: Comparison)
    requires |walk.fullStarts| == |walk.lines| && ResultOf(result, crateLines, walk, number) && result.mismatchAt.None?
    ensures |Kept(crateLines)| == |walk.lines|
    ensures forall i :: 0 <= i < |walk.lines| ==>
              var ours, theirs := Kept(crateLines)[i], walk.lines[i];
              ours == theirs || Elision(ours, theirs) || JsxStart(ours, theirs, walk.fullStarts[i], number)
  {
    var lines := Kept(crateLines);
    var verdicts := Verdicts(lines, walk, number);
    assert verdicts[..|verdicts|] == verdicts;
    if |lines| != |walk.lines| {
      LengthsDiffer(lines, walk, number);
    }
    forall i | 0 <= i < |walk.lines| ensures Judge(lines[i], walk.lines[i], walk.fullStarts[i], number) != Different {
      assert verdicts[i] in verdicts;
    }
  }

  lemma CountFor(known: map<Known, nat>, dropped: nat, verdicts: seq<Verdict>, name: Known)
    requires Counts(known, dropped, verdicts)
    ensures CountOf(known, name) == multiset(verdicts)[Substituted(name)] + if name == NestedNamespaceExport then dropped else 0
  {
    match name {
      case NestedNamespaceExport =>
      case ArrayBindingElision =>
      case JsxTextStart =>
    }
  }

  lemma AllSame(verdicts: seq<Verdict>, known: map<Known, nat>, dropped: nat)
    requires Counts(known, dropped, verdicts) && Different !in verdicts
    ensures known == map[] <==> dropped == 0 && forall v :: v in verdicts ==> v == Same
  {
    if known == map[] {
      CountFor(known, dropped, verdicts, NestedNamespaceExport);
      forall v | v in verdicts ensures v == Same {
        assert v in multiset(verdicts);
        if v.Substituted? {
          CountFor(known, dropped, verdicts, v.known);
        }
      }
    }
    if dropped == 0 && forall v :: v in verdicts ==> v == Same {
      forall name: Known ensures name !in known {
        assert Substituted(name) in multiset(verdicts) <==> Substituted(name) in verdicts;
        CountFor(known, dropped, verdicts, name);
      }
      assert known.Keys == {};
    }
  }

  lemma SameIsEqual(lines: seq<string>, walk: Walk, number: string -> Option<int>)
    requires |walk.fullStarts| == |walk.lines|
    ensures (forall v :: v in Verdicts(lines, walk, number) ==> v == Same) <==> lines == walk.lines
  {
    var verdicts := Verdicts(lines, walk, number);
    if forall v :: v in verdicts ==> v == Same {
      if |lines| != |walk.lines| {
        LengthsDiffer(lines, walk, number);
      }
      forall i | 0 <= i < |lines| ensures lines[i] == walk.lines[i] {
        assert verdicts[i] in verdicts;
      }
    }
  }

  /** Theorem: a file counts as identical (no mismatch, nothing known) exactly when the two walks are equal and
      the crate's walk has no implicit export to drop. */
  lemma IdenticalIff(crateLines: seq<string>, walk: Walk, number: string -> Option<int>, result: Comparison)
    requires |walk.fullStarts| == |walk.lines| && ResultOf(result, crateLines, walk, number)
    ensures result.mismatchAt.None? && result.known == map[] <==> crateLines == walk.lines && Kept(crateLines) == crateLines
  {
    var lines := Kept(crateLines);
    var verdicts := Verdicts(lines, walk, number);
    KeptLength(crateLines);
    SameIsEqual(lines, walk, number);
    assert verdicts[..|verdicts|] == verdicts;
    if result.mismatchAt.None? {
      AllSame(verdicts, result.known, |crateLines| - |lines|);
    } else {
      assert Different in verdicts;
    }
  }

  // ----- the known differences, told on the lines

  /** A walk line. */
  function Line(kind: string, start: string, end: string): string { kind + [' '] + start + [' '] + end }

  /** Theorem: the lines that may be dropped are export keywords of zero width. */
  lemma ImplicitExportIff(line: string)
    ensures ImplicitExport(line) <==> exists n :: n != "" && AllDigits(n) && line == Line("ExportKeyword", n, n)
  {
    if n :| n != "" && AllDigits(n) && line == Line("ExportKeyword", n, n) {
      SplitOnThree("ExportKeyword", n, n, ' ');
    }
    if ImplicitExport(line) {
      var fields := SplitOn(line, ' ');
      SplitOnHolds(line, ' ');
      JoinThree(fields[0], fields[1], fields[2]);
      assert fields == [fields[0], fields[1], fields[2]];
      assert line == Line("ExportKeyword", fields[1], fields[1]);
    }
  }

  lemma JoinThree(x: string, y: string, z: string)
    ensures Join([x, y, z], " ") == Line(x, y, z)
  {
    assert [x, y, z][..2] == [x, y] && [x, y][..1] == [x];
    assert Join([x, y], " ") == x + " " + y;
  }

  /** Theorem: a line is dropped exactly if it is such a keyword and the last line kept before it is a module's; all
      other lines are kept, in order. */
  lemma KeptNext(lines: seq<string>, line: string)
    ensures Kept(lines + [line])
         == if && (exists n :: n != "" && AllDigits(n) && line == Line("ExportKeyword", n, n))
               && Kept(lines) != [] && "ModuleDeclaration " <= Kept(lines)[|Kept(lines)| - 1]
            then Kept(lines) else Kept(lines) + [line]
  {
    ImplicitExportIff(line);
    assert (lines + [line])[..|lines|] == lines;
  }

  lemma FieldsOf(kind: string, start: string, end: string)
    requires ' ' !in kind && ' ' !in start && ' ' !in end
    ensures var line := Line(kind, start, end);
            FieldAt(line, 0) == Some(kind) && FieldAt(line, 1) == Some(start) && FieldAt(line, 2) == Some(end)
  {
    SplitOnThree(kind, start, end, ' ');
  }

  /** Theorem: of two different walk lines, one may stand for the other exactly if a nameless binding element stands for
      an omitted expression of the same extent, or a text of JSX starts at its full start and ends where the other does. */
  lemma SubstitutionIff(kind: string, start: string, end: string, kind': string, start': string, end': string,
                        fullStart: int, number: string -> Option<int>)
    requires ' ' !in kind && ' ' !in start && ' ' !in end && ' ' !in kind' && ' ' !in start' && ' ' !in end'
    ensures var ours, theirs := Line(kind, start, end), Line(kind', start', end');
            && (Elision(ours, theirs) <==> kind == "BindingElement" && kind' == "OmittedExpression" && start == start' && end == end')
            && (JsxStart(ours, theirs, fullStart, number)
                <==> kind == "JsxText" && kind' == "JsxText" && end == end' && number(start) == Some(fullStart))
  {
    FieldsOf(kind, start, end);
    FieldsOf(kind', start', end');
  }
}
