/** Normalized diagnostics and the string keys they are compared by. */
module Diagnostics {
  import opened Decimal
  import opened Sequences
  import opened Text

  datatype Option<+T> = None | Some(value: T) {
    function GetOr(default: T): T {
      if Some? then value else default
    }
  }

  datatype Source = TypeScript | SurgeTs

  datatype Diagnostic = Diagnostic(
    source: Source,
    code: string,
    fileName: string,
    line: Option<int>,
    column: Option<int>,
    message: Option<string>
  )

  /** What the fingerprint key is made of: everything but the source. */
  datatype Fingerprint = Fingerprint(
    fileName: string,
    code: string,
    line: Option<int>,
    column: Option<int>,
    message: Option<string>
  )

  function KeyByCode(d: Diagnostic): string { d.code }

  function KeyByFileCode(d: Diagnostic): string { d.fileName + " :: " + d.code }

  function KeyByFileCodeLine(d: Diagnostic): string {
    KeyByFileCode(d) + " :: line=" + IntText(d.line.GetOr(0))
  }

  function PositionText(p: Option<int>): string {
    if p.Some? then IntText(p.value) else "n/a"
  }

  function KeyByFullLocation(d: Diagnostic): string {
    KeyByFileCode(d) + " :: line=" + PositionText(d.line) + " :: column=" + PositionText(d.column)
  }

  function KeyByFingerprint(d: Diagnostic): Fingerprint {
    Fingerprint(d.fileName, d.code, d.line, d.column, d.message)
  }

  /** The key of the checker benchmark, which writes the same three parts in another order. */
  function ScoreKey(d: Diagnostic): string {
    d.fileName + ":" + IntText(d.line.GetOr(0)) + ":" + d.code
  }

  predicate HasLineInfo(d: Diagnostic) { d.line.Some? && d.column.Some? }

  // ----- what a key gives away

  lemma NumberIsNotAbsent(n: int)
    ensures IntText(n) != "n/a"
  {
    assert IntText(n)[0] in IntText(n);
    assert "n/a"[0] == 'n';
  }

  lemma PositionTextInjective(p: Option<int>, q: Option<int>)
    requires PositionText(p) == PositionText(q)
    ensures p == q
  {
    NumberIsNotAbsent(p.GetOr(0));
    NumberIsNotAbsent(q.GetOr(0));
    if p.Some? && q.Some? {
      IntTextInjective(p.value, q.value);
    }
  }

  /** The file/code/line key holds exactly the file/code key and the line, whatever the file and code are. */
  lemma FileCodeLineKeyParts(d: Diagnostic, e: Diagnostic)
    ensures KeyByFileCodeLine(d) == KeyByFileCodeLine(e)
       <==> KeyByFileCode(d) == KeyByFileCode(e) && d.line.GetOr(0) == e.line.GetOr(0)
  {
    if KeyByFileCodeLine(d) == KeyByFileCodeLine(e) {
      var a, b := KeyByFileCode(d) + " :: line", KeyByFileCode(e) + " :: line";
      var x, y := IntText(d.line.GetOr(0)), IntText(e.line.GetOr(0));
      assert KeyByFileCodeLine(d) == a + ['='] + x && KeyByFileCodeLine(e) == b + ['='] + y;
      SplitAtLast(a, x, b, y, '=');
      CancelSuffix(KeyByFileCode(d), KeyByFileCode(e), " :: line");
      IntTextInjective(d.line.GetOr(0), e.line.GetOr(0));
    }
  }

  /** The location key holds exactly the file/code key, the line and the column, absent ones included. */
  lemma FullLocationKeyParts(d: Diagnostic, e: Diagnostic)
    ensures KeyByFullLocation(d) == KeyByFullLocation(e)
       <==> KeyByFileCode(d) == KeyByFileCode(e) && d.line == e.line && d.column == e.column
  {
    if KeyByFullLocation(d) == KeyByFullLocation(e) {
      var a := KeyByFileCode(d) + " :: line=" + PositionText(d.line);
      var b := KeyByFileCode(e) + " :: line=" + PositionText(e.line);
      var x, y := PositionText(d.column), PositionText(e.column);
      assert KeyByFullLocation(d) == (a + " :: column") + ['='] + x;
      assert KeyByFullLocation(e) == (b + " :: column") + ['='] + y;
      SplitAtLast(a + " :: column", x, b + " :: column", y, '=');
      CancelSuffix(a, b, " :: column");
      var u, v := PositionText(d.line), PositionText(e.line);
      assert a == (KeyByFileCode(d) + " :: line") + ['='] + u;
      assert b == (KeyByFileCode(e) + " :: line") + ['='] + v;
      SplitAtLast(KeyByFileCode(d) + " :: line", u, KeyByFileCode(e) + " :: line", v, '=');
      CancelSuffix(KeyByFileCode(d), KeyByFileCode(e), " :: line");
      PositionTextInjective(d.line, e.line);
      PositionTextInjective(d.column, e.column);
    }
  }

  /** The fingerprint holds everything but the source. */
  lemma FingerprintParts(d: Diagnostic, e: Diagnostic)
    ensures KeyByFingerprint(d) == KeyByFingerprint(e) <==> d.(source := e.source) == e
  {
    assert d == Diagnostic(d.source, d.code, d.fileName, d.line, d.column, d.message);
  }

  // ----- when the file/code key gives away the code

  predicate EndsWith(s: string, suffix: string) {
    |suffix| <= |s| && s[|s| - |suffix|..] == suffix
  }

  /** No code, written with its separator, ends another code written with its separator. */
  predicate SeparableCodes(codes: set<string>) {
    forall c, c' :: c in codes && c' in codes && c != c' ==> !EndsWith(" :: " + c', " :: " + c)
  }

  lemma EqualEnds(a: string, x: string, b: string, y: string)
    requires a + x == b + y && |x| <= |y|
    ensures EndsWith(y, x)
    ensures |x| == |y| ==> x == y && a == b
  {
    var s := a + x;
    assert s[|a|..] == x && s[|b|..] == y;
    assert s[|b|..][|a| - |b|..] == s[|a|..];
    assert s[..|a|] == a && (b + y)[..|b|] == b;
  }

  lemma FileCodeKeyParts(d: Diagnostic, e: Diagnostic, codes: set<string>)
    requires SeparableCodes(codes) && d.code in codes && e.code in codes
    requires KeyByFileCode(d) == KeyByFileCode(e)
    ensures d.code == e.code && d.fileName == e.fileName
  {
    var x, y := " :: " + d.code, " :: " + e.code;
    assert KeyByFileCode(d) == d.fileName + x && KeyByFileCode(e) == e.fileName + y;
    assert x[4..] == d.code && y[4..] == e.code;
    if |x| <= |y| {
      EqualEnds(d.fileName, x, e.fileName, y);
    } else {
      EqualEnds(e.fileName, y, d.fileName, x);
    }
  }

  /** Codes such as TS2322 or surge::code hold no space, and so are separable. */
  lemma SpaceFreeCodesSeparable(codes: set<string>)
    requires forall c :: c in codes ==> ' ' !in c
    ensures SeparableCodes(codes)
  {
    forall c, c' | c in codes && c' in codes && EndsWith(" :: " + c', " :: " + c) ensures c == c' {
      var p := (" :: " + c')[..|c'| - |c|];
      assert " :: " + c' == p + (" :: " + c);
      assert " :: " + c' == " ::" + [' '] + c';
      assert p + (" :: " + c) == (p + " ::") + [' '] + c;
      SplitAtLast(" ::", c', p + " ::", c, ' ');
    }
  }

  lemma SuffixIsShorter(c: string, c': string)
    requires c != c' && EndsWith(" :: " + c', " :: " + c)
    ensures |c| < |c'|
  {
    assert (" :: " + c')[4..] == c' && (" :: " + c)[4..] == c;
  }

  /** Two codes that are not separable share a file/code key under suitable file names, even on equal positions,
      where the benchmark keys differ. */
  lemma CollidingFiles(c: string, c': string) returns (d: Diagnostic, e: Diagnostic)
    requires c != c' && EndsWith(" :: " + c', " :: " + c)
    ensures d.code == c && e.code == c' && HasLineInfo(d) && HasLineInfo(e)
    ensures KeyByFileCode(d) == KeyByFileCode(e) && KeyByFileCodeLine(d) == KeyByFileCodeLine(e)
    ensures ScoreKey(d) != ScoreKey(e)
  {
    var p := (" :: " + c')[..|c'| - |c|];
    d := Diagnostic(TypeScript, c, p, Some(1), Some(1), None);
    e := Diagnostic(SurgeTs, c', "", Some(1), Some(1), None);
    assert " :: " + c' == p + (" :: " + c);
    assert KeyByFileCode(d) == p + (" :: " + c);
    assert KeyByFileCode(e) == " :: " + c';
    FileCodeLineKeyParts(d, e);
    SuffixIsShorter(c, c');
    assert ScoreKey(d)[0] == ' ' && ScoreKey(e)[0] == ':';
  }

  // ----- the benchmark's key against the oracle's key

  /** No code, written behind a line number with its separators, ends another code written behind a colon. */
  ghost predicate ScoreSeparableCodes(codes: set<string>) {
    forall c, c', n: int :: c in codes && c' in codes ==> !EndsWith(":" + c', ":" + IntText(n) + ":" + c)
  }

  lemma TailHead(a: string, x: string, b: string, y: string)
    requires a + x == b + y && y != ""
    ensures |y| < |x| ==> x[|x| - |y|] == y[0]
  {
    assert (b + y)[|b|] == y[0];
    assert |y| < |x| ==> (a + x)[|b|] == x[|b| - |a|];
  }

  lemma NumberHasNoColon(n: int, c: string)
    ensures forall k :: 1 <= k <= |IntText(n)| ==> (":" + IntText(n) + ":" + c)[k] != ':'
  {
    var x := ":" + IntText(n) + ":" + c;
    forall k | 1 <= k <= |IntText(n)| ensures x[k] != ':' {
      assert x[k] == IntText(n)[k - 1] && IntText(n)[k - 1] in IntText(n);
    }
  }

  /** Of two codes behind equal texts, the shorter one ends the longer one together with its number. */
  lemma LongerCodeHoldsNumber(a: string, n: int, c: string, b: string, c': string)
    requires a + (":" + IntText(n) + ":" + c) == b + (":" + c') && |c| < |c'|
    ensures EndsWith(":" + c', ":" + IntText(n) + ":" + c)
  {
    var x, y := ":" + IntText(n) + ":" + c, ":" + c';
    TailHead(a, x, b, y);
    NumberHasNoColon(n, c);
    assert |x| <= |y|;
    EqualEnds(a, x, b, y);
  }

  lemma ScoreKeyShape(d: Diagnostic)
    ensures ScoreKey(d) == d.fileName + (":" + IntText(d.line.GetOr(0)) + ":" + d.code)
    ensures ScoreKey(d) == (d.fileName + [':'] + IntText(d.line.GetOr(0))) + (":" + d.code)
  {
  }

  lemma ScoreKeyParts(d: Diagnostic, e: Diagnostic, codes: set<string>)
    requires ScoreSeparableCodes(codes) && d.code in codes && e.code in codes
    requires ScoreKey(d) == ScoreKey(e)
    ensures d.code == e.code && d.fileName == e.fileName && d.line.GetOr(0) == e.line.GetOr(0)
  {
    var m, n := IntText(d.line.GetOr(0)), IntText(e.line.GetOr(0));
    ScoreKeyShape(d);
    ScoreKeyShape(e);
    if |d.code| < |e.code| {
      LongerCodeHoldsNumber(d.fileName, d.line.GetOr(0), d.code, e.fileName + [':'] + n, e.code);
    } else if |e.code| < |d.code| {
      LongerCodeHoldsNumber(e.fileName, e.line.GetOr(0), e.code, d.fileName + [':'] + m, d.code);
    } else {
      EqualEnds(d.fileName + [':'] + m, ":" + d.code, e.fileName + [':'] + n, ":" + e.code);
      assert (":" + d.code)[1..] == d.code && (":" + e.code)[1..] == e.code;
      SplitAtLast(d.fileName, m, e.fileName, n, ':');
      IntTextInjective(d.line.GetOr(0), e.line.GetOr(0));
    }
  }

  lemma FirstPart(s: string, x: string) returns (p: string)
    requires EndsWith(s, x)
    ensures s == p + x
  {
    p := s[..|s| - |x|];
  }

  lemma CollidingLines(c: string, c': string, n: int) returns (d: Diagnostic, e: Diagnostic)
    requires EndsWith(":" + c', ":" + IntText(n) + ":" + c)
    ensures d.code == c && e.code == c' && HasLineInfo(d) && HasLineInfo(e)
    ensures ScoreKey(d) == ScoreKey(e) && KeyByFileCodeLine(d) != KeyByFileCodeLine(e)
  {
    var x := ":" + IntText(n) + ":" + c;
    var p := FirstPart(":" + c', x);
    d := Diagnostic(TypeScript, c, ":0" + p, Some(n), Some(1), None);
    e := Diagnostic(SurgeTs, c', "", Some(0), Some(1), None);
    assert ScoreKey(d) == (":0" + p) + x by { ScoreKeyShape(d); }
    assert ScoreKey(e) == ":0" + (p + x) by {
      assert IntText(0) == "0";
      ScoreKeyShape(e);
    }
    Associates(":0", p, x);
    FileCodeLineKeyParts(d, e);
    assert KeyByFileCode(d)[0] == ':' && KeyByFileCode(e)[0] == ' ';
  }

  /** Over these codes the benchmark key and the oracle's file/code/line key tell the same diagnostics apart. */
  ghost predicate KeysAgree(codes: set<string>) {
    forall d: Diagnostic, e: Diagnostic :: d.code in codes && e.code in codes ==>
      (ScoreKey(d) == ScoreKey(e) <==> KeyByFileCodeLine(d) == KeyByFileCodeLine(e))
  }

  /** Theorem: the two keys agree exactly over codes that are separable for both. */
  lemma KeysAgreeIffSeparable(codes: set<string>)
    ensures KeysAgree(codes) <==> SeparableCodes(codes) && ScoreSeparableCodes(codes)
  {
    if SeparableCodes(codes) && ScoreSeparableCodes(codes) {
      forall d: Diagnostic, e: Diagnostic | d.code in codes && e.code in codes
        ensures ScoreKey(d) == ScoreKey(e) <==> KeyByFileCodeLine(d) == KeyByFileCodeLine(e) {
        SeparableKeysAgree(d, e, codes);
      }
    }
    if KeysAgree(codes) {
      LocatedKeysSeparate(codes);
    }
  }

  /** Where the two keys agree on located diagnostics, the codes are separable for both. */
  lemma LocatedKeysSeparate(codes: set<string>)
    requires forall d: Diagnostic, e: Diagnostic ::
               d.code in codes && e.code in codes && HasLineInfo(d) && HasLineInfo(e)
               ==> (ScoreKey(d) == ScoreKey(e) <==> KeyByFileCodeLine(d) == KeyByFileCodeLine(e))
    ensures SeparableCodes(codes) && ScoreSeparableCodes(codes)
  {
    forall c, c' | c in codes && c' in codes && c != c' ensures !EndsWith(" :: " + c', " :: " + c) {
      if EndsWith(" :: " + c', " :: " + c) {
        var d, e := CollidingFiles(c, c');
      }
    }
    forall c, c', n: int | c in codes && c' in codes ensures !EndsWith(":" + c', ":" + IntText(n) + ":" + c) {
      if EndsWith(":" + c', ":" + IntText(n) + ":" + c) {
        var d, e := CollidingLines(c, c', n);
      }
    }
  }

  lemma SeparableKeysAgree(d: Diagnostic, e: Diagnostic, codes: set<string>)
    requires SeparableCodes(codes) && ScoreSeparableCodes(codes) && d.code in codes && e.code in codes
    ensures ScoreKey(d) == ScoreKey(e) <==> KeyByFileCodeLine(d) == KeyByFileCodeLine(e)
  {
    FileCodeLineKeyParts(d, e);
    if ScoreKey(d) == ScoreKey(e) {
      ScoreKeyParts(d, e, codes);
    }
    if KeyByFileCodeLine(d) == KeyByFileCodeLine(e) {
      FileCodeKeyParts(d, e, codes);
    }
  }

  /** Codes free of spaces and colons are separable for both keys. */
  lemma PlainCodesSeparable(codes: set<string>)
    requires forall c :: c in codes ==> ' ' !in c && ':' !in c
    ensures SeparableCodes(codes) && ScoreSeparableCodes(codes)
  {
    SpaceFreeCodesSeparable(codes);
    forall c, c', n: int | c in codes && c' in codes ensures !EndsWith(":" + c', ":" + IntText(n) + ":" + c) {
      NumberedCodeHasColon(c, c', n);
    }
  }

  lemma NumberedCodeHasColon(c: string, c': string, n: int)
    ensures EndsWith(":" + c', ":" + IntText(n) + ":" + c) ==> ':' in c'
  {
    var x, y := ":" + IntText(n) + ":" + c, ":" + c';
    if EndsWith(y, x) {
      var k := |IntText(n)| + 1;
      assert x[k] == ':' && y[|y| - |x|..][k] == y[|y| - |x| + k];
      assert c'[|y| - |x| + k - 1] == ':';
    }
  }
}
