/** The JavaScript string operations the scripts rely on. */
module Text {
  import opened Sequences

  /** The characters `\s` matches and `trim` removes. */
  predicate IsSpace(c: char) {
    || c == '\t' || c == '\n' || c == '\U{000B}' || c == '\U{000C}' || c == '\r' || c == ' '
    || c == '\U{00A0}' || c == '\U{1680}' || '\U{2000}' <= c <= '\U{200A}'
    || c == '\U{2028}' || c == '\U{2029}' || c == '\U{202F}' || c == '\U{205F}' || c == '\U{3000}'
    || c == '\U{FEFF}'
  }

  function TrimStart(s: string): string {
    if s != "" && IsSpace(s[0]) then TrimStart(s[1..]) else s
  }

  function TrimEnd(s: string): string {
    if s != "" && IsSpace(s[|s| - 1]) then TrimEnd(s[..|s| - 1]) else s
  }

  function Trim(s: string): string { TrimEnd(TrimStart(s)) }

  predicate AllSpace(s: string) { forall c :: c in s ==> IsSpace(c) }

  predicate Trimmed(s: string) {
    s == "" || (!IsSpace(s[0]) && !IsSpace(s[|s| - 1]))
  }

  lemma {:induction false} TrimStartSplit(s: string) returns (dropped: string)
    ensures s == dropped + TrimStart(s) && AllSpace(dropped)
    ensures TrimStart(s) == "" || !IsSpace(TrimStart(s)[0])
  {
    if s != "" && IsSpace(s[0]) {
      var rest := TrimStartSplit(s[1..]);
      dropped := [s[0]] + rest;
    } else {
      dropped := "";
    }
  }

  lemma {:induction false} TrimEndSplit(s: string) returns (dropped: string)
    ensures s == TrimEnd(s) + dropped && AllSpace(dropped)
    ensures TrimEnd(s) == "" || !IsSpace(TrimEnd(s)[|TrimEnd(s)| - 1])
  {
    if s != "" && IsSpace(s[|s| - 1]) {
      var rest := TrimEndSplit(s[..|s| - 1]);
      dropped := rest + [s[|s| - 1]];
    } else {
      dropped := "";
    }
  }

  /** `Trim` removes white space at the two ends only, and all of it. */
  lemma TrimSplit(s: string) returns (before: string, after: string)
    ensures s == before + Trim(s) + after && AllSpace(before) && AllSpace(after)
    ensures Trimmed(Trim(s))
  {
    before := TrimStartSplit(s);
    var t := TrimStart(s);
    after := TrimEndSplit(t);
    assert t == Trim(s) + after;
    assert before + Trim(s) + after == before + (Trim(s) + after);
    assert Trim(s) != "" ==> Trim(s)[0] == t[0];
  }

  lemma {:induction false} TrimStartOf(before: string, s: string)
    requires AllSpace(before) && (s == "" || !IsSpace(s[0]))
    ensures TrimStart(before + s) == s
  {
    if before == "" {
      assert before + s == s;
    } else {
      assert (before + s)[1..] == before[1..] + s;
      TrimStartOf(before[1..], s);
    }
  }

  lemma {:induction false} TrimEndOf(s: string, after: string)
    requires AllSpace(after) && (s == "" || !IsSpace(s[|s| - 1]))
    ensures TrimEnd(s + after) == s
  {
    if after == "" {
      assert s + after == s;
    } else {
      assert (s + after)[..|s + after| - 1] == s + after[..|after| - 1];
      TrimEndOf(s, after[..|after| - 1]);
    }
  }

  lemma TrimOf(before: string, s: string, after: string)
    requires AllSpace(before) && AllSpace(after) && Trimmed(s)
    ensures Trim(before + s + after) == s
  {
    if s == "" {
      TrimStartOf(before + after, "");
      assert before + s + after == (before + after) + "";
    } else {
      assert before + s + after == before + (s + after);
      TrimStartOf(before, s + after);
      TrimEndOf(s, after);
    }
  }

  predicate StartsWith(s: string, prefix: string) { prefix <= s }

  /** The first index of `c` in `s`, or the length of `s`. */
  function IndexOf(s: string, c: char): (i: nat)
    ensures i <= |s| && (i < |s| ==> s[i] == c)
    ensures forall k :: 0 <= k < i ==> s[k] != c
  {
    if s == "" || s[0] == c then 0 else
      var i := IndexOf(s[1..], c);
      assert forall k :: 1 <= k < i + 1 ==> s[k] == s[1..][k - 1];
      i + 1
  }

  // ----- join

  /** Array.prototype.join. */
  function Join(parts: seq<string>, separator: string): string {
    if parts == [] then ""
    else if |parts| == 1 then parts[0]
    else Join(parts[..|parts| - 1], separator) + separator + parts[|parts| - 1]
  }

  lemma {:induction false} JoinAppend(a: seq<string>, b: seq<string>, separator: string)
    requires a != [] && b != []
    ensures Join(a + b, separator) == Join(a, separator) + separator + Join(b, separator)
  {
    var init, last := b[..|b| - 1], b[|b| - 1];
    assert (a + b)[..|a + b| - 1] == a + init;
    if init == [] {
      assert a + init == a;
    } else {
      JoinAppend(a, init, separator);
    }
  }

  lemma {:induction false} JoinEmptyAppend(a: seq<string>, b: seq<string>)
    ensures Join(a + b, "") == Join(a, "") + Join(b, "")
  {
    if a == [] {
      assert a + b == b;
    } else if b == [] {
      assert a + b == a;
    } else {
      JoinAppend(a, b, "");
    }
  }

  // ----- split(/\r?\n/)

  function DropCr(line: string): string {
    if line != "" && line[|line| - 1] == '\r' then line[..|line| - 1] else line
  }

  function SplitLines(text: string): (lines: seq<string>)
    ensures lines != []
    decreases |text|
  {
    var i := IndexOf(text, '\n');
    if i == |text| then [text] else [DropCr(text[..i])] + SplitLines(text[i + 1..])
  }

  lemma SplitLinesAt(text: string, line: string, rest: string)
    requires text == line + "\n" + rest && '\n' !in line
    ensures SplitLines(text) == [DropCr(line)] + SplitLines(rest)
  {
    assert forall k :: 0 <= k < |line| ==> text[k] == line[k];
    assert text[|line|] == '\n';
    assert IndexOf(text, '\n') == |line|;
    assert text[..|line|] == line && text[|line| + 1..] == rest;
  }

  lemma SplitLinesWhole(text: string)
    requires '\n' !in text
    ensures SplitLines(text) == [text]
  {
  }

  lemma FirstLine(text: string) returns (line: string, rest: string)
    requires '\n' in text
    ensures text == line + "\n" + rest && '\n' !in line
  {
    var i := IndexOf(text, '\n');
    line, rest := text[..i], text[i + 1..];
  }

  lemma DropCrSuffix(line: string, rest: string)
    ensures DropCr(line + "\n" + rest) == line + "\n" + DropCr(rest)
  {
  }

  lemma SplitLinesFirst(a: string, b: string)
    requires '\n' !in a
    ensures SplitLines(a + "\n" + b) == SplitLines(DropCr(a)) + SplitLines(b)
  {
    SplitLinesAt(a + "\n" + b, a, b);
    SplitLinesWhole(DropCr(a));
  }

  /** A newline is a place to split, whatever stands on its two sides. */
  lemma {:induction false} SplitLinesAppend(a: string, b: string)
    ensures SplitLines(a + "\n" + b) == SplitLines(DropCr(a)) + SplitLines(b)
    decreases |a|
  {
    if '\n' !in a {
      SplitLinesFirst(a, b);
    } else {
      var line, rest := FirstLine(a);
      assert SplitLines(a + "\n" + b) == [DropCr(line)] + SplitLines(rest + "\n" + b) by {
        assert a + "\n" + b == line + "\n" + (rest + "\n" + b);
        SplitLinesAt(a + "\n" + b, line, rest + "\n" + b);
      }
      assert SplitLines(DropCr(a)) == [DropCr(line)] + SplitLines(DropCr(rest)) by {
        DropCrSuffix(line, rest);
        SplitLinesAt(DropCr(a), line, DropCr(rest));
      }
      SplitLinesAppend(rest, b);
    }
  }

  /** A line a text can hold unchanged: no newline, and no carriage return that the split would eat. */
  predicate CleanLine(line: string) {
    '\n' !in line && (line == "" || line[|line| - 1] != '\r')
  }

  lemma {:induction false} JoinKeepsCr(lines: seq<string>)
    requires lines != [] && forall line :: line in lines ==> CleanLine(line)
    ensures DropCr(Join(lines, "\n")) == Join(lines, "\n")
  {
    assert lines[|lines| - 1] in lines;
  }

  /** Joining clean lines and splitting again gives the lines back. */
  lemma {:induction false} SplitLinesJoin(lines: seq<string>)
    requires lines != [] && forall line :: line in lines ==> CleanLine(line)
    ensures SplitLines(Join(lines, "\n")) == lines
  {
    var init, last := lines[..|lines| - 1], lines[|lines| - 1];
    assert last in lines;
    SplitLinesWhole(last);
    assert lines == init + [last];
    if init != [] {
      SplitLinesJoin(init);
      JoinKeepsCr(init);
      SplitLinesAppend(Join(init, "\n"), last);
    }
  }

  // ----- texts with either line end

  datatype LineEnd = Lf | CrLf { function Text(): string { if Lf? then "\n" else "\r\n" } }

  datatype EndedLine = EndedLine(line: string, end: LineEnd) {
    /** A carriage return before a bare newline would belong to the line end. */
    predicate Holds() { '\n' !in line && (end.Lf? ==> CleanLine(line)) }
  }

  function LineOf(x: EndedLine): string { x.line }

  /** A text from its lines; only the last one has no line end. */
  function Assemble(body: seq<EndedLine>, last: string): string {
    if body == [] then last else body[0].line + body[0].end.Text() + Assemble(body[1..], last)
  }

  predicate Assembled(body: seq<EndedLine>, last: string) {
    '\n' !in last && forall i :: 0 <= i < |body| ==> body[i].Holds()
  }

  lemma SplitEndedLine(x: EndedLine, rest: string)
    requires x.Holds()
    ensures SplitLines(x.line + x.end.Text() + rest) == [x.line] + SplitLines(rest)
  {
    var held := if x.end.Lf? then x.line else x.line + "\r";
    assert x.line + x.end.Text() + rest == held + "\n" + rest;
    SplitLinesAt(held + "\n" + rest, held, rest);
  }

  lemma AssembledRest(body: seq<EndedLine>, last: string)
    requires body != [] && Assembled(body, last)
    ensures body[0].Holds() && Assembled(body[1..], last)
    ensures Map(body, LineOf) + [last] == [body[0].line] + (Map(body[1..], LineOf) + [last])
  {
    assert forall i :: 0 <= i < |body| - 1 ==> body[1..][i] == body[i + 1];
  }

  /** Splitting gives back the lines, whatever their ends. */
  lemma {:induction false} SplitLinesAssemble(body: seq<EndedLine>, last: string)
    requires Assembled(body, last)
    ensures SplitLines(Assemble(body, last)) == Map(body, LineOf) + [last]
  {
    if body == [] {
      SplitLinesWhole(last);
    } else {
      AssembledRest(body, last);
      SplitLinesAssemble(body[1..], last);
      SplitEndedLine(body[0], Assemble(body[1..], last));
    }
  }

  lemma EndFirstLine(line: string) returns (x: EndedLine)
    requires '\n' !in line
    ensures x.Holds() && x.line + x.end.Text() == line + "\n"
  {
    x := if DropCr(line) == line then EndedLine(line, Lf) else EndedLine(DropCr(line), CrLf);
  }

  /** Every text is assembled from lines. */
  lemma {:induction false} EveryTextIsAssembled(text: string) returns (body: seq<EndedLine>, last: string)
    ensures Assembled(body, last) && Assemble(body, last) == text
    decreases |text|
  {
    if '\n' in text {
      var line, rest := FirstLine(text);
      var x := EndFirstLine(line);
      var others;
      others, last := EveryTextIsAssembled(rest);
      body := [x] + others;
      assert body[1..] == others;
    } else {
      body, last := [], text;
    }
  }

  // ----- split on a single character

  function SplitOn(s: string, c: char): (fields: seq<string>)
    ensures fields != []
    decreases |s|
  {
    var i := IndexOf(s, c);
    if i == |s| then [s] else [s[..i]] + SplitOn(s[i + 1..], c)
  }

  /** Joining the fields again gives the text, and no field holds the separator. */
  lemma {:induction false} SplitOnHolds(s: string, c: char)
    ensures Join(SplitOn(s, c), [c]) == s
    ensures forall f :: f in SplitOn(s, c) ==> c !in f
    decreases |s|
  {
    var i := IndexOf(s, c);
    if i < |s| {
      var field, rest := s[..i], s[i + 1..];
      SplitOnHolds(rest, c);
      assert Join(SplitOn(s, c), [c]) == s by {
        JoinAppend([field], SplitOn(rest, c), [c]);
        assert s == field + [c] + rest;
      }
      assert c !in field;
    } else {
      assert c !in s;
    }
  }

  lemma SplitOnFirst(field: string, rest: string, c: char)
    requires c !in field
    ensures SplitOn(field + ([c] + rest), c) == [field] + SplitOn(rest, c)
  {
    var s := field + ([c] + rest);
    assert forall k :: 0 <= k < |field| ==> s[k] == field[k] && field[k] in field;
    assert s[|field|] == c;
    assert IndexOf(s, c) == |field|;
    assert s[..|field|] == field && s[|field| + 1..] == rest;
  }

  lemma SplitOnLast(field: string, c: char)
    requires c !in field
    ensures SplitOn(field, c) == [field]
  {
    assert IndexOf(field, c) == |field|;
  }

  lemma SplitOnTwo(y: string, z: string, c: char)
    requires c !in y && c !in z
    ensures SplitOn(y + ([c] + z), c) == [y, z]
  {
    SplitOnFirst(y, z, c);
    SplitOnLast(z, c);
  }

  lemma NestThree(x: string, y: string, z: string, c: string)
    ensures x + c + y + c + z == x + (c + (y + (c + z)))
  {
  }

  /** Three fields with two separators between them. */
  lemma SplitOnThree(x: string, y: string, z: string, c: char)
    requires c !in x && c !in y && c !in z
    ensures SplitOn(x + [c] + y + [c] + z, c) == [x, y, z]
  {
    NestThree(x, y, z, [c]);
    SplitOnFirst(x, y + ([c] + z), c);
    SplitOnTwo(y, z, c);
    assert [x] + [y, z] == [x, y, z];
  }

  // ----- separators: the last occurrence of `c` splits a string in one way only

  lemma LongerTailHolds(a: string, x: string, b: string, y: string, c: char)
    requires a + [c] + x == b + [c] + y && |x| < |y|
    ensures c in y
  {
    assert (b + [c] + y)[|a|] == y[|a| - |b| - 1];
  }

  lemma SplitAtLast(a: string, x: string, b: string, y: string, c: char)
    requires c !in x && c !in y
    requires a + [c] + x == b + [c] + y
    ensures a == b && x == y
  {
    var s, t := a + [c] + x, b + [c] + y;
    if |x| < |y| {
      LongerTailHolds(a, x, b, y, c);
    } else if |y| < |x| {
      LongerTailHolds(b, y, a, x, c);
    }
    assert s[..|a|] == a && t[..|b|] == b;
    assert s[|a| + 1..] == x && t[|b| + 1..] == y;
  }

  lemma CancelSuffix(a: string, b: string, suffix: string)
    requires a + suffix == b + suffix
    ensures a == b
  {
    assert (a + suffix)[..|a|] == a && (b + suffix)[..|b|] == b;
  }
}
