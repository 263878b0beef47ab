/** extractJsonText and extractBalancedJson of scripts/real-projects/measure-project.ts, against the JSON
    grammar of sections 2 and 7 of RFC 8259. */
module JsonExtract {
  import opened Sequences
  import opened Text
  import opened Diagnostics

  // ----- the scanner

  datatype Scan = Scan(depth: int, inString: bool, escaped: bool)

  const START := Scan(0, false, false)

  function CloseOf(open: char): char { if open == '{' then '}' else ']' }

  /** One turn of the scanner's loop. */
  function Advance(s: Scan, c: char, open: char): Scan {
    if s.inString then
      if s.escaped then s.(escaped := false)
      else if c == '\\' then s.(escaped := true)
      else if c == '"' then s.(inString := false)
      else s
    else if c == '"' then s.(inString := true)
    else if c == open then s.(depth := s.depth + 1)
    else if c == CloseOf(open) then s.(depth := s.depth - 1)
    else s
  }

  function Run(s: Scan, text: string, open: char): Scan {
    if text == "" then s else Advance(Run(s, text[..|text| - 1], open), text[|text| - 1], open)
  }

  /** The last character of `text` is a closing bracket outside strings that brings the depth back to zero. */
  predicate Closes(text: string, open: char) {
    && text != ""
    && var before, c := Run(START, text[..|text| - 1], open), text[|text| - 1];
       !before.inString && c != '"' && c != open && c == CloseOf(open) && before.depth == 1
  }

  /** The shortest prefix of `s` that is no shorter than `n` and closes. */
  function ShortestFrom(s: string, n: nat): Option<string>
    requires s != ""
    decreases |s| - n
  {
    if n > |s| then None
    else if Closes(s[..n], s[0]) then Some(s[..n])
    else ShortestFrom(s, n + 1)
  }

  function Balanced(s: string): Option<string>
    requires s != ""
  {
    ShortestFrom(s, 1)
  }

  /** extractBalancedJson. */
  method ExtractBalancedJson(text: string, start: nat) returns (result: Option<string>)
    requires start < |text|
    ensures result == Balanced(text[start..])
  {
    var open := text[start];
    var close := CloseOf(open);
    var state := START;
    ghost var s := text[start..];
    for i := start to |text|
      invariant state == Run(START, s[..i - start], open)
      invariant Balanced(s) == ShortestFrom(s, i - start + 1)
    {
      var c := text[i];
      assert s[..i - start + 1][..i - start] == s[..i - start] && s[i - start] == c;
      if state.inString {
        if state.escaped {
          state := state.(escaped := false);
        } else if c == '\\' {
          state := state.(escaped := true);
        } else if c == '"' {
          state := state.(inString := false);
        }
        continue;
      }
      if c == '"' {
        state := state.(inString := true);
      } else if c == open {
        state := state.(depth := state.depth + 1);
      } else if c == close {
        state := state.(depth := state.depth - 1);
        if state.depth == 0 {
          assert text[start..i + 1] == s[..i - start + 1];
          return Some(text[start..i + 1]);
        }
      }
    }
    return None;
  }

  /** Theorem: the slice returned is the shortest prefix that closes, and there is none when nothing is returned. */
  lemma {:induction false} ShortestFromHolds(s: string, n: nat)
    requires s != ""
    ensures var r := ShortestFrom(s, n);
            && (r.Some? ==> n <= |r.value| <= |s| && r.value == s[..|r.value|] && Closes(r.value, s[0])
                            && forall k :: n <= k < |r.value| ==> !Closes(s[..k], s[0]))
            && (r.None? ==> forall k :: n <= k <= |s| ==> !Closes(s[..k], s[0]))
    decreases |s| - n
  {
    if n <= |s| && !Closes(s[..n], s[0]) {
      ShortestFromHolds(s, n + 1);
    }
  }

  lemma {:induction false} ShortestFromIs(s: string, n: nat, k: nat)
    requires n <= k <= |s| && s != "" && Closes(s[..k], s[0])
    requires forall j :: n <= j < k ==> !Closes(s[..j], s[0])
    ensures ShortestFrom(s, n) == Some(s[..k])
    decreases k - n
  {
    if n < k {
      ShortestFromIs(s, n + 1, k);
    }
  }

  // ----- recovering the JSON region

  predicate IsBracket(c: char) { c == '{' || c == '[' }

  /** The first balanced slice from `start` on that parses. */
  function Recover(text: string, start: nat, isJson: string -> bool): Option<string>
    decreases |text| - start
  {
    if start >= |text| then None
    else if IsBracket(text[start]) && Balanced(text[start..]).Some? && isJson(Balanced(text[start..]).value)
    then Balanced(text[start..])
    else Recover(text, start + 1, isJson)
  }

  /** extractJsonText. `isJson` stands for "JSON.parse accepts"; None stands for the exception. */
  method ExtractJsonText(raw: string, isJson: string -> bool) returns (result: Option<string>)
    ensures var text := Trim(raw);
            result == if isJson(text) then Some(text) else Recover(text, 0, isJson)
  {
    var text := Trim(raw);
    if isJson(text) {
      return Some(text);
    }
    for start := 0 to |text|
      invariant Recover(text, 0, isJson) == Recover(text, start, isJson)
    {
      if !IsBracket(text[start]) {
        continue;
      }
      var candidate := ExtractBalancedJson(text, start);
      if candidate.None? {
        continue;
      }
      if isJson(candidate.value) {
        return candidate;
      }
    }
    return None;
  }

  // ----- JSON texts

  datatype StringChar = Plain(c: char) | Escape(c: char) | UnicodeEscape(digits: string)

  datatype Json =
    | Scalar(text: string)
    | Str(chars: seq<StringChar>)
    | Arr(blank: string, elements: seq<Element>)
    | Obj(blank: string, members: seq<Member>)

  /** An array element with the white space around it. */
  datatype Element = Element(before: string, value: Json, after: string)

  /** An object member with the white space around its parts. */
  datatype Member = Member(before: string, name: seq<StringChar>, mid: string, mid': string, value: Json, after: string)

  predicate Blank(s: string) { forall c :: c in s ==> c == ' ' || c == '\t' || c == '\n' || c == '\r' }

  predicate HexDigit(c: char) { '0' <= c <= '9' || 'a' <= c <= 'f' || 'A' <= c <= 'F' }

  predicate ValidChar(x: StringChar) {
    match x
    case Plain(c) => c >= ' ' && c != '"' && c != '\\'
    case Escape(c) => c in "\"\\/bfnrt"
    case UnicodeEscape(digits) => |digits| == 4 && forall c :: c in digits ==> HexDigit(c)
  }

  /** The characters of numbers and of the literals true, false and null. */
  predicate ScalarChar(c: char) {
    '0' <= c <= '9' || 'a' <= c <= 'z' || c == 'E' || c == '+' || c == '-' || c == '.'
  }

  predicate Valid(v: Json)
    decreases v, 1
  {
    match v
    case Scalar(text) => text != "" && forall c :: c in text ==> ScalarChar(c)
    case Str(chars) => forall x :: x in chars ==> ValidChar(x)
    case Arr(blank, elements) => Blank(blank) && ValidElements(elements)
    case Obj(blank, members) => Blank(blank) && ValidMembers(members)
  }

  predicate ValidElements(es: seq<Element>)
    decreases es, 0
  {
    es == [] || (Blank(es[0].before) && Valid(es[0].value) && Blank(es[0].after) && ValidElements(es[1..]))
  }

  predicate ValidMembers(ms: seq<Member>)
    decreases ms, 0
  {
    ms == [] ||
    (&& Blank(ms[0].before) && (forall x :: x in ms[0].name ==> ValidChar(x)) && Blank(ms[0].mid) && Blank(ms[0].mid')
     && Valid(ms[0].value) && Blank(ms[0].after) && ValidMembers(ms[1..]))
  }

  function PrintChar(x: StringChar): string {
    match x
    case Plain(c) => [c]
    case Escape(c) => "\\" + [c]
    case UnicodeEscape(digits) => "\\u" + digits
  }

  function PrintChars(chars: seq<StringChar>): string {
    if chars == [] then "" else PrintChars(chars[..|chars| - 1]) + PrintChar(chars[|chars| - 1])
  }

  function PrintString(chars: seq<StringChar>): string { "\"" + PrintChars(chars) + "\"" }

  function Print(v: Json): string
    decreases v, 1
  {
    match v
    case Scalar(text) => text
    case Str(chars) => PrintString(chars)
    case Arr(blank, elements) => "[" + (blank + PrintElements(elements)) + "]"
    case Obj(blank, members) => "{" + (blank + PrintMembers(members)) + "}"
  }

  /** The elements, each but the last followed by a comma. */
  function PrintElements(es: seq<Element>): string
    decreases es, 0
  {
    if es == [] then ""
    else (es[0].before + Print(es[0].value) + es[0].after) + ((if |es| == 1 then "" else ",") + PrintElements(es[1..]))
  }

  function PrintMembers(ms: seq<Member>): string
    decreases ms, 0
  {
    if ms == [] then ""
    else (ms[0].before + PrintString(ms[0].name) + (ms[0].mid + ":" + ms[0].mid') + Print(ms[0].value) + ms[0].after)
         + ((if |ms| == 1 then "" else ",") + PrintMembers(ms[1..]))
  }

  // ----- the scanner over JSON texts

  lemma {:induction false} RunAppend(s: Scan, a: string, b: string, open: char)
    ensures Run(s, a + b, open) == Run(Run(s, a, open), b, open)
  {
    if b == "" {
      assert a + b == a;
    } else {
      assert (a + b)[..|a + b| - 1] == a + b[..|b| - 1];
      RunAppend(s, a, b[..|b| - 1], open);
    }
  }

  function At(depth: int): Scan { Scan(depth, false, false) }

  /** Reading `text` from `s`, the depth is positive after every character. */
  predicate Safe(s: Scan, text: string, open: char) {
    text == "" || (Safe(s, text[..|text| - 1], open) && Run(s, text, open).depth >= 1)
  }

  lemma {:induction false} SafeAppend(s: Scan, a: string, b: string, open: char)
    ensures Safe(s, a + b, open) <==> Safe(s, a, open) && Safe(Run(s, a, open), b, open)
  {
    if b == "" {
      assert a + b == a;
    } else {
      assert (a + b)[..|a + b| - 1] == a + b[..|b| - 1];
      SafeAppend(s, a, b[..|b| - 1], open);
      RunAppend(s, a, b, open);
    }
  }

  lemma {:induction false} SafePrefix(s: Scan, text: string, open: char, n: nat)
    requires Safe(s, text, open) && 1 <= n <= |text|
    ensures Run(s, text[..n], open).depth >= 1
  {
    if n < |text| {
      SafePrefix(s, text[..|text| - 1], open, n);
      assert text[..|text| - 1][..n] == text[..n];
    } else {
      assert text[..n] == text;
    }
  }

  /** Reading `text` from `s` leads back to `s`, at positive depths only. */
  predicate KeepsFrom(s: Scan, text: string, open: char) {
    Run(s, text, open) == s && Safe(s, text, open)
  }

  lemma KeepsFromAppend(s: Scan, a: string, b: string, open: char)
    requires KeepsFrom(s, a, open) && KeepsFrom(s, b, open)
    ensures KeepsFrom(s, a + b, open)
  {
    RunAppend(s, a, b, open);
    SafeAppend(s, a, b, open);
  }

  /** The scanner passes over `text` outside strings from every positive depth. */
  ghost predicate Keeps(text: string, open: char) {
    forall depth :: depth >= 1 ==> KeepsFrom(At(depth), text, open)
  }

  lemma KeepsAppend(a: string, b: string, open: char)
    requires Keeps(a, open) && Keeps(b, open)
    ensures Keeps(a + b, open)
  {
    forall depth | depth >= 1 ensures KeepsFrom(At(depth), a + b, open) {
      KeepsFromAppend(At(depth), a, b, open);
    }
  }

  /** A character that is neither a quote nor a bracket. */
  predicate Neutral(c: char) { c != '"' && c != '{' && c != '}' && c != '[' && c != ']' }

  lemma {:induction false} NeutralKeeps(text: string, open: char)
    requires IsBracket(open) && forall c :: c in text ==> Neutral(c)
    ensures Keeps(text, open)
  {
    if text != "" {
      var init, last := text[..|text| - 1], text[|text| - 1];
      assert last in text;
      NeutralKeeps(init, open);
      forall depth | depth >= 1 ensures KeepsFrom(At(depth), text, open) {
        assert KeepsFrom(At(depth), init, open);
      }
    }
  }

  function InString(depth: int): Scan { Scan(depth, true, false) }

  lemma {:induction false} DigitsKeep(digits: string, depth: int, open: char)
    requires depth >= 1 && forall c :: c in digits ==> HexDigit(c)
    ensures KeepsFrom(InString(depth), digits, open)
  {
    if digits != "" {
      DigitsKeep(digits[..|digits| - 1], depth, open);
      assert digits[|digits| - 1] in digits;
    }
  }

  lemma EscapeKeeps(c: char, depth: int, open: char)
    requires depth >= 1
    ensures KeepsFrom(InString(depth), "\\" + [c], open)
  {
    var text := "\\" + [c];
    assert text[..1] == "\\" && "\\"[..0] == "";
    assert Run(InString(depth), "\\", open) == Scan(depth, true, true);
    assert Safe(InString(depth), "\\", open);
  }

  lemma CharKeeps(x: StringChar, depth: int, open: char)
    requires ValidChar(x) && depth >= 1
    ensures KeepsFrom(InString(depth), PrintChar(x), open)
  {
    match x {
      case Plain(c) =>
        assert [c][..0] == "";
      case Escape(c) =>
        EscapeKeeps(c, depth, open);
      case UnicodeEscape(digits) =>
        EscapeKeeps('u', depth, open);
        DigitsKeep(digits, depth, open);
        assert PrintChar(x) == ("\\" + ['u']) + digits;
        KeepsFromAppend(InString(depth), "\\" + ['u'], digits, open);
    }
  }

  lemma {:induction false} CharsKeep(chars: seq<StringChar>, depth: int, open: char)
    requires depth >= 1 && forall x :: x in chars ==> ValidChar(x)
    ensures KeepsFrom(InString(depth), PrintChars(chars), open)
  {
    if chars != [] {
      var init, last := chars[..|chars| - 1], chars[|chars| - 1];
      assert last in chars;
      CharsKeep(init, depth, open);
      CharKeeps(last, depth, open);
      KeepsFromAppend(InString(depth), PrintChars(init), PrintChar(last), open);
    }
  }

  lemma SingleRun(s: Scan, c: char, open: char)
    ensures Run(s, [c], open) == Advance(s, c, open)
    ensures Safe(s, [c], open) <==> Advance(s, c, open).depth >= 1
  {
    assert [c][..0] == "";
  }

  /** Text that leads from one state to another and back, between two single characters. */
  lemma WrappedKeeps(s: Scan, first: char, text: string, last: char, open: char)
    requires s.depth >= 1
    requires var inner := Advance(s, first, open);
             inner.depth >= 1 && KeepsFrom(inner, text, open) && Advance(inner, last, open) == s
    ensures KeepsFrom(s, [first] + text + [last], open)
  {
    var inner := Advance(s, first, open);
    SingleRun(s, first, open);
    RunAppend(s, [first], text, open);
    SafeAppend(s, [first], text, open);
    SingleRun(inner, last, open);
    RunAppend(s, [first] + text, [last], open);
    SafeAppend(s, [first] + text, [last], open);
  }

  lemma StringKeeps(chars: seq<StringChar>, open: char)
    requires IsBracket(open) && forall x :: x in chars ==> ValidChar(x)
    ensures Keeps(PrintString(chars), open)
  {
    forall depth | depth >= 1 ensures KeepsFrom(At(depth), PrintString(chars), open) {
      CharsKeep(chars, depth, open);
      WrappedKeeps(At(depth), '"', PrintChars(chars), '"', open);
    }
  }

  lemma BracketsKeep(text: string, first: char, open: char)
    requires IsBracket(open) && IsBracket(first) && Keeps(text, open)
    ensures Keeps([first] + text + [CloseOf(first)], open)
  {
    forall depth | depth >= 1 ensures KeepsFrom(At(depth), [first] + text + [CloseOf(first)], open) {
      assert KeepsFrom(At(depth), text, open) && KeepsFrom(At(depth + 1), text, open);
      WrappedKeeps(At(depth), first, text, CloseOf(first), open);
    }
  }

  /** The scanner passes over every JSON value, whichever bracket it counts. */
  lemma {:induction false} ValueKeeps(v: Json, open: char)
    requires Valid(v) && IsBracket(open)
    ensures Keeps(Print(v), open)
    decreases v, 1
  {
    match v {
      case Scalar(text) =>
        NeutralKeeps(text, open);
      case Str(chars) =>
        StringKeeps(chars, open);
      case Arr(_, _) =>
        ContentKeeps(v, open);
        BracketsKeep(Content(v), '[', open);
      case Obj(_, _) =>
        ContentKeeps(v, open);
        BracketsKeep(Content(v), '{', open);
    }
  }

  /** What stands between the brackets of an array or an object. */
  function Content(v: Json): string
    requires v.Arr? || v.Obj?
  {
    if v.Arr? then v.blank + PrintElements(v.elements) else v.blank + PrintMembers(v.members)
  }

  lemma {:induction false} ContentKeeps(v: Json, open: char)
    requires Valid(v) && IsBracket(open) && (v.Arr? || v.Obj?)
    ensures Keeps(Content(v), open)
    decreases v, 0
  {
    NeutralKeeps(v.blank, open);
    if v.Arr? {
      ElementsKeep(v.elements, open);
      KeepsAppend(v.blank, PrintElements(v.elements), open);
    } else {
      MembersKeep(v.members, open);
      KeepsAppend(v.blank, PrintMembers(v.members), open);
    }
  }

  lemma PaddedKeeps(before: string, text: string, after: string, open: char)
    requires IsBracket(open) && Blank(before) && Blank(after) && Keeps(text, open)
    ensures Keeps(before + text + after, open)
  {
    NeutralKeeps(before, open);
    NeutralKeeps(after, open);
    KeepsAppend(before, text, open);
    KeepsAppend(before + text, after, open);
  }

  lemma {:induction false} ElementsKeep(es: seq<Element>, open: char)
    requires ValidElements(es) && IsBracket(open)
    ensures Keeps(PrintElements(es), open)
    decreases es, 0
  {
    NeutralKeeps("", open);
    if es != [] {
      ValueKeeps(es[0].value, open);
      PaddedKeeps(es[0].before, Print(es[0].value), es[0].after, open);
      ElementsKeep(es[1..], open);
      var comma := if |es| == 1 then "" else ",";
      NeutralKeeps(comma, open);
      KeepsAppend(comma, PrintElements(es[1..]), open);
      KeepsAppend(es[0].before + Print(es[0].value) + es[0].after, comma + PrintElements(es[1..]), open);
    }
  }

  function NameText(m: Member): string { m.before + PrintString(m.name) + (m.mid + ":" + m.mid') }

  lemma NameKeeps(m: Member, open: char)
    requires IsBracket(open) && Blank(m.before) && Blank(m.mid) && Blank(m.mid') && forall x :: x in m.name ==> ValidChar(x)
    ensures Keeps(NameText(m), open)
  {
    StringKeeps(m.name, open);
    NeutralKeeps(m.before, open);
    NeutralKeeps(m.mid + ":" + m.mid', open);
    KeepsAppend(m.before, PrintString(m.name), open);
    KeepsAppend(m.before + PrintString(m.name), m.mid + ":" + m.mid', open);
  }

  lemma {:induction false} MembersKeep(ms: seq<Member>, open: char)
    requires ValidMembers(ms) && IsBracket(open)
    ensures Keeps(PrintMembers(ms), open)
    decreases ms, 0
  {
    NeutralKeeps("", open);
    if ms != [] {
      var m := ms[0];
      NameKeeps(m, open);
      ValueKeeps(m.value, open);
      NeutralKeeps(m.after, open);
      KeepsAppend(NameText(m), Print(m.value), open);
      KeepsAppend(NameText(m) + Print(m.value), m.after, open);
      MembersKeep(ms[1..], open);
      var comma := if |ms| == 1 then "" else ",";
      NeutralKeeps(comma, open);
      KeepsAppend(comma, PrintMembers(ms[1..]), open);
      KeepsAppend(NameText(m) + Print(m.value) + m.after, comma + PrintMembers(ms[1..]), open);
    }
  }

  // ----- the round trip

  lemma BracketedCloses(open: char, text: string)
    requires IsBracket(open) && Keeps(text, open)
    ensures Closes([open] + text + [CloseOf(open)], open)
    ensures forall k :: 1 <= k <= |text| + 1 ==> !Closes(([open] + text + [CloseOf(open)])[..k], open)
  {
    var full := [open] + text + [CloseOf(open)];
    assert KeepsFrom(At(1), text, open);
    SingleRun(START, open, open);
    RunAppend(START, [open], text, open);
    assert full[..|full| - 1] == [open] + text;
    SafeAppend(START, [open], text, open);
    forall k | 1 <= k <= |text| + 1 ensures !Closes(full[..k], open) {
      SafePrefix(START, [open] + text, open, k);
      assert ([open] + text)[..k] == full[..k];
    }
  }

  /** Theorem: an object or array text followed by anything is extracted exactly. */
  lemma ExtractsPrinted(v: Json, suffix: string)
    requires Valid(v) && (v.Arr? || v.Obj?)
    ensures Print(v) != "" && Balanced(Print(v) + suffix) == Some(Print(v))
  {
    var open := if v.Arr? then '[' else '{';
    var full := Print(v);
    ContentKeeps(v, open);
    assert full == [open] + Content(v) + [CloseOf(open)];
    BracketedCloses(open, Content(v));
    var s := full + suffix;
    assert s[..|full|] == full && s[0] == open;
    forall k | 1 <= k < |full| ensures !Closes(s[..k], s[0]) {
      assert s[..k] == full[..k];
    }
    ShortestFromIs(s, 1, |full|);
  }

  lemma PrintedEnds(v: Json)
    requires v.Arr? || v.Obj?
    ensures Print(v) != "" && Trimmed(Print(v)) && IsBracket(Print(v)[0])
  {
    var open := if v.Arr? then '[' else '{';
    assert Print(v) == [open] + Content(v) + [CloseOf(open)];
  }

  /** A position from which a parsing slice can be recovered. */
  predicate Candidate(text: string, start: nat, isJson: string -> bool)
    requires start < |text|
  {
    IsBracket(text[start]) && Balanced(text[start..]).Some? && isJson(Balanced(text[start..]).value)
  }

  /** Nothing can be recovered from the positions from `start` to `end`. */
  predicate NoCandidate(text: string, start: nat, end: nat, isJson: string -> bool)
    requires end <= |text|
  {
    forall j :: start <= j < end ==> !Candidate(text, j, isJson)
  }

  lemma {:induction false} SkipsTo(text: string, start: nat, end: nat, isJson: string -> bool)
    requires start <= end <= |text| && NoCandidate(text, start, end, isJson)
    ensures Recover(text, start, isJson) == Recover(text, end, isJson)
    decreases end - start
  {
    if start < end {
      assert !Candidate(text, start, isJson);
      SkipsTo(text, start + 1, end, isJson);
    }
  }

  lemma TrimmedMiddle(before: string, full: string, after: string)
    requires full != "" && Trimmed(full)
    requires before == "" || !IsSpace(before[0])
    requires after == "" || !IsSpace(after[|after| - 1])
    ensures Trimmed(before + full + after)
  {
    var middle := before + full + after;
    assert middle[0] == if before != "" then before[0] else full[0];
    assert middle[|middle| - 1] == if after != "" then after[|after| - 1] else full[|full| - 1];
  }

  lemma GatherMiddle(a: string, b: string, m: string, c: string, d: string)
    ensures (a + b) + m + (c + d) == a + (b + m + c) + d
  {
  }

  lemma TrimPadded(blank: string, before: string, full: string, after: string, tail: string)
    requires full != "" && Trimmed(full) && AllSpace(blank) && AllSpace(tail)
    requires before == "" || !IsSpace(before[0])
    requires after == "" || !IsSpace(after[|after| - 1])
    ensures Trim((blank + before) + full + (after + tail)) == before + full + after
  {
    GatherMiddle(blank, before, full, after, tail);
    TrimmedMiddle(before, full, after);
    TrimOf(blank, before + full + after, tail);
  }

  /** Trimming stops at a trimmed text in the middle. */
  lemma TrimAround(prefix: string, full: string, suffix: string)
    requires full != "" && Trimmed(full)
    ensures Trim(prefix + full + suffix) == TrimStart(prefix) + full + TrimEnd(suffix)
  {
    var blank := TrimStartSplit(prefix);
    var tail := TrimEndSplit(suffix);
    TrimPadded(blank, TrimStart(prefix), full, TrimEnd(suffix), tail);
  }

  /** Theorem: JSON output is recovered from behind any noise in which no parsing slice starts, and before any
      noise, unless the whole output is JSON itself. */
  lemma RecoversPrinted(prefix: string, v: Json, suffix: string, isJson: string -> bool)
    requires Valid(v) && (v.Arr? || v.Obj?) && isJson(Print(v))
    ensures var text, n := Trim(prefix + Print(v) + suffix), |TrimStart(prefix)|;
            n <= |text| && (NoCandidate(text, 0, n, isJson) ==> Recover(text, 0, isJson) == Some(Print(v)))
  {
    var before, after := TrimStart(prefix), TrimEnd(suffix);
    PrintedEnds(v);
    TrimAround(prefix, Print(v), suffix);
    Associates(before, Print(v), after);
    RecoversBehind(before, v, after, isJson);
  }

  lemma RecoversBehind(before: string, v: Json, after: string, isJson: string -> bool)
    requires Valid(v) && (v.Arr? || v.Obj?) && isJson(Print(v))
    ensures NoCandidate(before + (Print(v) + after), 0, |before|, isJson) ==>
              Recover(before + (Print(v) + after), 0, isJson) == Some(Print(v))
  {
    var rest := Print(v) + after;
    PrintedEnds(v);
    ExtractsPrinted(v, after);
    assert (before + rest)[|before|..] == rest && rest[0] == Print(v)[0];
    if NoCandidate(before + rest, 0, |before|, isJson) {
      SkipsTo(before + rest, 0, |before|, isJson);
    }
  }

  /** In noise without brackets no slice starts. */
  lemma BracketFreeNoise(prefix: string, v: Json, suffix: string, isJson: string -> bool)
    requires Valid(v) && (v.Arr? || v.Obj?) && forall c :: c in prefix ==> !IsBracket(c)
    ensures var text, n := Trim(prefix + Print(v) + suffix), |TrimStart(prefix)|;
            n <= |text| && NoCandidate(text, 0, n, isJson)
  {
    var before := TrimStart(prefix);
    PrintedEnds(v);
    TrimAround(prefix, Print(v), suffix);
    var blank := TrimStartSplit(prefix);
    assert forall j :: 0 <= j < |before| ==> before[j] == prefix[|blank| + j] && prefix[|blank| + j] in prefix;
  }

  /** Theorem: what is recovered is the balanced slice at the first bracket whose slice parses. */
  lemma {:induction false} RecoverHolds(text: string, start: nat, isJson: string -> bool) returns (at: nat)
    ensures forall j :: start <= j < at && j < |text| ==> !Candidate(text, j, isJson)
    ensures Recover(text, start, isJson).Some? ==>
              start <= at < |text| && Candidate(text, at, isJson) && Recover(text, start, isJson) == Balanced(text[at..])
    ensures Recover(text, start, isJson).None? ==> at >= |text|
    decreases |text| - start
  {
    if start < |text| && !Candidate(text, start, isJson) {
      at := RecoverHolds(text, start + 1, isJson);
    } else {
      at := start;
    }
  }
}
