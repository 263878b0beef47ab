/** compileTemplate and codeForMessage of scripts/bench/compare-checkers.ts: from a message text back to the
    diagnostic code whose template it is an instance of. */
module Templates {
  import opened Text
  import opened Decimal
  import opened Whitespace
  import opened Diagnostics

  /** The literal parts of a template, with a hole between each two of them. */
  datatype Template = Template(code: string, parts: seq<string>)

  function Prefix(parts: seq<string>): string { if parts == [] then "" else parts[0] }

  function LiteralLength(parts: seq<string>): nat {
    if parts == [] then 0 else |parts[0]| + LiteralLength(parts[1..])
  }

  /** What the regular expression `^part([\s\S]*?)part...$` accepts: the parts in order, with any text in the
      holes. Whether the holes match lazily does not matter to acceptance. */
  predicate Matches(parts: seq<string>, message: string)
    decreases |parts|, 1
  {
    if parts == [] then false
    else if |parts| == 1 then message == parts[0]
    else StartsWith(message, parts[0]) && MatchesBehindHole(parts[1..], message[|parts[0]|..])
  }

  predicate MatchesBehindHole(parts: seq<string>, text: string)
    decreases |parts|, 2
  {
    exists n :: 0 <= n <= |text| && Matches(parts, text[n..])
  }

  // ----- compileTemplate

  function DigitLength(s: string): (n: nat)
    ensures n <= |s| && AllDigits(s[..n]) && (n < |s| ==> !IsDigit(s[n]))
  {
    if s == "" || !IsDigit(s[0]) then 0 else
      var n := DigitLength(s[1..]);
      assert s[..n + 1] == [s[0]] + s[1..][..n];
      n + 1
  }

  /** The length of a hole `{digits}` at the start of `s`, or 0. */
  function HoleLength(s: string): (n: nat)
    ensures n <= |s|
  {
    if s == "" || s[0] != '{' then 0 else
      var n := DigitLength(s[1..]);
      if n > 0 && n + 1 < |s| && s[n + 1] == '}' then n + 2 else 0
  }

  /** `text.split(/\{\d+\}/)`. */
  function SplitHoles(text: string): (parts: seq<string>)
    ensures parts != []
    decreases |text|
  {
    if text == "" then [""]
    else if HoleLength(text) > 0 then [""] + SplitHoles(text[HoleLength(text)..])
    else
      var rest := SplitHoles(text[1..]);
      [[text[0]] + rest[0]] + rest[1..]
  }

  function CompileTemplate(code: string, text: string): Template {
    Template(code, SplitHoles(CollapseWhitespace(text)))
  }

  // ----- codeForMessage

  function Length(t: Template): nat { LiteralLength(t.parts) }

  /** The template at `i` matches and is the first of the longest ones that do, among the first `n`. */
  ghost predicate BestAmong(templates: seq<Template>, n: nat, message: string, i: nat)
    requires n <= |templates|
  {
    && i < n && Matches(templates[i].parts, message)
    && (forall j :: 0 <= j < n && Matches(templates[j].parts, message) ==> Length(templates[j]) <= Length(templates[i]))
    && (forall j :: 0 <= j < i && Matches(templates[j].parts, message) ==> Length(templates[j]) < Length(templates[i]))
  }

  ghost predicate IsBest(templates: seq<Template>, message: string, i: nat) {
    BestAmong(templates, |templates|, message, i)
  }

  ghost predicate BestCode(templates: seq<Template>, message: string, i: nat, code: string) {
    IsBest(templates, message, i) && templates[i].code == code
  }

  /** What the search without its two shortcuts returns. */
  ghost predicate IsCodeOf(templates: seq<Template>, message: string, code: Option<string>)
  {
    match code
    case None => forall t :: t in templates ==> !Matches(t.parts, message)
    case Some(c) => exists i: nat :: BestCode(templates, message, i, c)
  }

  /** Theorem: the prefix test and the length cutoff lose no match. */
  lemma {:induction false} MatchNeedsPrefix(parts: seq<string>, message: string)
    ensures Matches(parts, message) ==> StartsWith(message, Prefix(parts)) && LiteralLength(parts) <= |message|
  {
    if |parts| == 1 {
      assert parts[1..] == [];
    } else if Matches(parts, message) {
      var text := message[|parts[0]|..];
      assert MatchesBehindHole(parts[1..], text);
      var n :| 0 <= n <= |text| && Matches(parts[1..], text[n..]);
      MatchNeedsPrefix(parts[1..], text[n..]);
    }
  }

  method CodeForMessage(rawMessage: string, templates: seq<Template>) returns (code: Option<string>)
    ensures IsCodeOf(templates, CollapseWhitespace(rawMessage), code)
  {
    code := BestCodeFor(CollapseWhitespace(rawMessage), templates);
  }

  /** The search of codeForMessage. */
  method BestCodeFor(message: string, templates: seq<Template>) returns (code: Option<string>)
    ensures IsCodeOf(templates, message, code)
  {
    var best: Option<Template> := None;
    ghost var at: nat := 0;
    for i := 0 to |templates|
      invariant best.None? ==> forall j :: 0 <= j < i ==> !Matches(templates[j].parts, message)
      invariant best.Some? ==> BestAmong(templates, i, message, at) && best.value == templates[at]
    {
      var template := templates[i];
      MatchNeedsPrefix(template.parts, message);
      if !StartsWith(message, Prefix(template.parts)) {
        continue;
      }
      if best.Some? && LiteralLength(template.parts) <= LiteralLength(best.value.parts) {
        continue;
      }
      if Matches(template.parts, message) {
        best, at := Some(template), i;
      }
    }
    if best.None? {
      return None;
    }
    assert BestCode(templates, message, at, best.value.code);
    return Some(best.value.code);
  }

  lemma BestIsUnique(templates: seq<Template>, message: string, i: nat, j: nat)
    requires IsBest(templates, message, i) && IsBest(templates, message, j)
    ensures i == j
  {
  }

  /** The best template is unique, so the code is a function of the templates and the message. */
  lemma CodeIsUnique(templates: seq<Template>, message: string, code: Option<string>, code': Option<string>)
    requires IsCodeOf(templates, message, code) && IsCodeOf(templates, message, code')
    ensures code == code'
  {
    assert forall i: nat :: IsBest(templates, message, i) ==> templates[i] in templates;
    if code.Some? && code'.Some? {
      var i: nat :| BestCode(templates, message, i, code.value);
      var j: nat :| BestCode(templates, message, j, code'.value);
      BestIsUnique(templates, message, i, j);
    }
  }

  // ----- instances of a template

  /** The parts with `fillings` in the holes. */
  function Fill(parts: seq<string>, fillings: seq<string>): string
    requires |parts| == |fillings| + 1
  {
    if |parts| == 1 then parts[0] else parts[0] + (fillings[0] + Fill(parts[1..], fillings[1..]))
  }

  /** Theorem: a template matches exactly its instances. */
  lemma {:induction false} MatchesIffInstance(parts: seq<string>, message: string)
    ensures Matches(parts, message) <==> exists fillings :: |parts| == |fillings| + 1 && Fill(parts, fillings) == message
  {
    if Matches(parts, message) {
      var fillings := FillingsOf(parts, message);
    }
    if fillings :| |parts| == |fillings| + 1 && Fill(parts, fillings) == message {
      InstanceMatches(parts, fillings);
    }
  }

  lemma {:induction false} FillingsOf(parts: seq<string>, message: string) returns (fillings: seq<string>)
    requires Matches(parts, message)
    ensures |parts| == |fillings| + 1 && Fill(parts, fillings) == message
  {
    if |parts| == 1 {
      fillings := [];
    } else {
      var start := |parts[0]|;
      var text := message[start..];
      var n :| 0 <= n <= |text| && Matches(parts[1..], text[n..]);
      var rest := FillingsOf(parts[1..], text[n..]);
      fillings := [text[..n]] + rest;
      assert fillings[1..] == rest;
      assert message == parts[0] + text && text == text[..n] + text[n..];
    }
  }

  lemma {:induction false} InstanceMatches(parts: seq<string>, fillings: seq<string>)
    requires |parts| == |fillings| + 1
    ensures Matches(parts, Fill(parts, fillings))
  {
    if |parts| > 1 {
      var message, rest := Fill(parts, fillings), Fill(parts[1..], fillings[1..]);
      InstanceMatches(parts[1..], fillings[1..]);
      var text := fillings[0] + rest;
      assert message[|parts[0]|..] == text && text[|fillings[0]|..] == rest;
      assert MatchesBehindHole(parts[1..], text);
    }
  }

  /** Theorem: a single-spaced message that is an instance of a listed template gets a code, and it is the code
      of a matching template at least as literal as that one. */
  lemma InstancesAreRecovered(templates: seq<Template>, k: nat, fillings: seq<string>, code: Option<string>) returns (i: nat)
    requires k < |templates| && |templates[k].parts| == |fillings| + 1
    requires IsCodeOf(templates, Fill(templates[k].parts, fillings), code)
    ensures i < |templates| && code == Some(templates[i].code)
    ensures Matches(templates[i].parts, Fill(templates[k].parts, fillings))
    ensures |Join(templates[k].parts, "")| <= |Join(templates[i].parts, "")|
  {
    var message := Fill(templates[k].parts, fillings);
    InstanceMatches(templates[k].parts, fillings);
    assert templates[k] in templates;
    forall t | t in templates ensures LiteralLength(t.parts) == |Join(t.parts, "")| {
      LiteralLengthIs(t.parts);
    }
    i :| BestCode(templates, message, i, code.value);
  }

  /** `holes` are the holes of `text`, in order. */
  ghost predicate HolesOf(text: string, holes: seq<string>) {
    && |SplitHoles(text)| == |holes| + 1 && Fill(SplitHoles(text), holes) == text
    && forall i :: 0 <= i < |holes| ==> |holes[i]| == HoleLength(holes[i]) > 0
  }

  lemma HoleFirst(text: string, rest: seq<string>)
    requires HoleLength(text) > 0 && HolesOf(text[HoleLength(text)..], rest)
    ensures HolesOf(text, [text[..HoleLength(text)]] + rest)
  {
    var n := HoleLength(text);
    HoleAlone(text);
    FillHole(text[..n], SplitHoles(text[n..]), rest);
    assert text[..n] + text[n..] == text;
    var holes := [text[..n]] + rest;
    forall i | 0 <= i < |holes| ensures |holes[i]| == HoleLength(holes[i]) > 0 {
      assert i > 0 ==> holes[i] == rest[i - 1];
    }
  }

  /** Theorem: a template's parts are its text with the holes taken out. */
  lemma {:induction false} SplitHolesHold(text: string) returns (holes: seq<string>)
    ensures HolesOf(text, holes)
    decreases |text|
  {
    if text == "" {
      holes := [];
    } else if HoleLength(text) > 0 {
      var rest := SplitHolesHold(text[HoleLength(text)..]);
      HoleFirst(text, rest);
      holes := [text[..HoleLength(text)]] + rest;
    } else {
      holes := SplitHolesHold(text[1..]);
      FillFirst(text[0], SplitHoles(text[1..]), holes);
    }
  }

  lemma {:induction false} DigitsEnd(digits: string, rest: string)
    requires AllDigits(digits) && (rest == "" || !IsDigit(rest[0]))
    ensures DigitLength(digits + rest) == |digits|
  {
    if digits == "" {
      assert digits + rest == rest;
    } else {
      assert digits[0] in digits && (digits + rest)[1..] == digits[1..] + rest;
      DigitsEnd(digits[1..], rest);
    }
  }

  /** A number in braces is a hole, whatever follows it. */
  lemma NumberedIsHole(digits: string, rest: string)
    requires digits != "" && AllDigits(digits)
    ensures HoleLength("{" + (digits + ("}" + rest))) == |digits| + 2
  {
    var s := "{" + (digits + ("}" + rest));
    assert s[1..] == digits + ("}" + rest);
    DigitsEnd(digits, "}" + rest);
    assert s[|digits| + 1] == ("}" + rest)[0];
  }

  /** And every hole is a number in braces. */
  lemma HoleIsNumbered(s: string) returns (digits: string)
    requires HoleLength(s) > 0
    ensures digits != "" && AllDigits(digits) && s[..HoleLength(s)] == "{" + digits + "}"
  {
    digits := s[1..][..DigitLength(s[1..])];
  }

  lemma {:induction false} DigitLengthPrefix(s: string, n: nat)
    requires DigitLength(s) < n <= |s|
    ensures DigitLength(s[..n]) == DigitLength(s)
  {
    if IsDigit(s[0]) {
      assert s[1..][..n - 1] == s[..n][1..];
      DigitLengthPrefix(s[1..], n - 1);
    }
  }

  /** A hole stays one without what follows it. */
  lemma HoleAlone(text: string)
    ensures HoleLength(text[..HoleLength(text)]) == HoleLength(text)
  {
    var n := HoleLength(text);
    if n > 0 {
      DigitLengthPrefix(text[1..], n - 1);
      assert text[..n][1..] == text[1..][..n - 1];
    }
  }

  lemma FillHole(hole: string, parts: seq<string>, holes: seq<string>)
    requires |parts| == |holes| + 1
    ensures Fill([""] + parts, [hole] + holes) == hole + Fill(parts, holes)
  {
    assert ([""] + parts)[1..] == parts && ([hole] + holes)[1..] == holes;
  }

  lemma FillFirst(c: char, parts: seq<string>, holes: seq<string>)
    requires |parts| == |holes| + 1
    ensures Fill([[c] + parts[0]] + parts[1..], holes) == [c] + Fill(parts, holes)
  {
    var grown := [[c] + parts[0]] + parts[1..];
    assert grown[1..] == parts[1..];
  }

  // ----- from a template's text to its code

  /** A diagnostic as the message table lists it. */
  datatype Entry = Entry(code: string, text: string)

  function Compile(table: seq<Entry>): (templates: seq<Template>)
    ensures |templates| == |table|
  {
    seq(|table|, i requires 0 <= i < |table| => CompileTemplate(table[i].code, table[i].text))
  }

  function HoleCount(text: string): nat
    decreases |text|
  {
    if text == "" then 0
    else if HoleLength(text) > 0 then 1 + HoleCount(text[HoleLength(text)..])
    else HoleCount(text[1..])
  }

  /** The text with its holes replaced, in order. */
  function Substitute(text: string, fillings: seq<string>): string
    requires |fillings| == HoleCount(text)
    decreases |text|
  {
    if text == "" then ""
    else if HoleLength(text) > 0 then fillings[0] + Substitute(text[HoleLength(text)..], fillings[1..])
    else [text[0]] + Substitute(text[1..], fillings)
  }

  lemma {:induction false} SubstituteFills(text: string, fillings: seq<string>)
    requires |fillings| == HoleCount(text)
    ensures |SplitHoles(text)| == |fillings| + 1 && Fill(SplitHoles(text), fillings) == Substitute(text, fillings)
    decreases |text|
  {
    if text == "" {
    } else if HoleLength(text) > 0 {
      var rest := text[HoleLength(text)..];
      SubstituteFills(rest, fillings[1..]);
      FillHole(fillings[0], SplitHoles(rest), fillings[1..]);
      assert fillings == [fillings[0]] + fillings[1..];
    } else {
      SubstituteFills(text[1..], fillings);
      FillFirst(text[0], SplitHoles(text[1..]), fillings);
    }
  }

  lemma {:induction false} PartsAreHoles(text: string)
    ensures |SplitHoles(text)| == HoleCount(text) + 1
    decreases |text|
  {
    if text != "" {
      PartsAreHoles(text[if HoleLength(text) > 0 then HoleLength(text) else 1..]);
    }
  }

  /** The message is the entry's single-spaced text with something in its holes. */
  ghost predicate InstanceOf(e: Entry, message: string) {
    exists fillings :: |fillings| == HoleCount(CollapseWhitespace(e.text))
                       && Substitute(CollapseWhitespace(e.text), fillings) == message
  }

  /** Theorem: a compiled template matches exactly the instances of its text. */
  lemma CompiledMatches(e: Entry, message: string)
    ensures Matches(CompileTemplate(e.code, e.text).parts, message) <==> InstanceOf(e, message)
  {
    var text := CollapseWhitespace(e.text);
    var parts := SplitHoles(text);
    PartsAreHoles(text);
    MatchesIffInstance(parts, message);
    if Matches(parts, message) {
      var fillings := FillingsOf(parts, message);
      SubstituteFills(text, fillings);
    }
    if fillings :| |fillings| == HoleCount(text) && Substitute(text, fillings) == message {
      SubstituteFills(text, fillings);
    }
  }

  /** What is left of the entry's single-spaced text when nothing is filled in. */
  function LiteralText(e: Entry): string {
    var text := CollapseWhitespace(e.text);
    Substitute(text, seq(HoleCount(text), _ => ""))
  }

  lemma {:induction false} LiteralLengthIs(parts: seq<string>)
    ensures LiteralLength(parts) == |Join(parts, "")|
  {
    if parts != [] {
      LiteralLengthIs(parts[1..]);
      JoinEmptyAppend([parts[0]], parts[1..]);
      assert parts == [parts[0]] + parts[1..];
    }
  }

  /** Theorem: an instance is as long as the literal parts and what fills the holes. */
  lemma {:induction false} FillLength(parts: seq<string>, fillings: seq<string>)
    requires |parts| == |fillings| + 1
    ensures |Fill(parts, fillings)| == |Join(parts, "")| + |Join(fillings, "")|
  {
    if |parts| > 1 {
      FillLength(parts[1..], fillings[1..]);
      JoinEmptyAppend([parts[0]], parts[1..]);
      JoinEmptyAppend([fillings[0]], fillings[1..]);
      assert parts == [parts[0]] + parts[1..] && fillings == [fillings[0]] + fillings[1..];
    }
  }

  lemma {:induction false} JoinBlanks(n: nat)
    ensures Join(seq(n, _ => ""), "") == ""
  {
    if n > 1 {
      JoinBlanks(n - 1);
      assert seq(n, _ => "")[..n - 1] == seq(n - 1, _ => "");
    }
  }

  /** Theorem: the length the search compares by is that of the text with nothing filled in. */
  lemma LiteralIs(e: Entry)
    ensures Length(CompileTemplate(e.code, e.text)) == |LiteralText(e)|
  {
    var text := CollapseWhitespace(e.text);
    var blanks := seq(HoleCount(text), _ => "");
    SubstituteFills(text, blanks);
    FillLength(SplitHoles(text), blanks);
    LiteralLengthIs(SplitHoles(text));
    JoinBlanks(HoleCount(text));
  }

  /** The entry at `i` is the first of the most literal ones the message is an instance of. */
  ghost predicate BestEntry(table: seq<Entry>, message: string, i: nat) {
    && i < |table| && InstanceOf(table[i], message)
    && (forall j :: 0 <= j < |table| && InstanceOf(table[j], message) ==> |LiteralText(table[j])| <= |LiteralText(table[i])|)
    && (forall j :: 0 <= j < i && InstanceOf(table[j], message) ==> |LiteralText(table[j])| < |LiteralText(table[i])|)
  }

  /** Theorem: from template texts to the code. A message gets the code of the first most literal entry it is an
      instance of, and none exactly when it is an instance of no entry. */
  lemma MessageGetsCode(table: seq<Entry>, rawMessage: string, code: Option<string>)
    requires IsCodeOf(Compile(table), CollapseWhitespace(rawMessage), code)
    ensures code.Some? ==> exists i: nat :: BestEntry(table, CollapseWhitespace(rawMessage), i) && code.value == table[i].code
    ensures code.None? <==> forall e :: e in table ==> !InstanceOf(e, CollapseWhitespace(rawMessage))
  {
    var message, templates := CollapseWhitespace(rawMessage), Compile(table);
    forall i | 0 <= i < |table| ensures Matches(templates[i].parts, message) <==> InstanceOf(table[i], message) {
      CompiledMatches(table[i], message);
    }
    forall i | 0 <= i < |table| ensures Length(templates[i]) == |LiteralText(table[i])| {
      LiteralIs(table[i]);
    }
    if code.Some? {
      var i: nat :| BestCode(templates, message, i, code.value);
      assert BestEntry(table, message, i);
      assert table[i] in table;
    } else {
      forall e | e in table ensures !InstanceOf(e, message) {
        var i :| 0 <= i < |table| && table[i] == e;
        assert templates[i] in templates;
      }
    }
  }
}
