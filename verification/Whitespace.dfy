/** collapseWhitespace of scripts/bench/compare-checkers.ts, and what it depends on: the words of a text. */
module Whitespace {
  import opened Sequences
  import opened Text

  predicate EndsInSpace(s: string) { s != "" && IsSpace(s[|s| - 1]) }

  /** `value.replace(/\s+/g, ' ')`. */
  function Squeeze(s: string): string {
    if s == "" then ""
    else
      var init, c := s[..|s| - 1], s[|s| - 1];
      if !IsSpace(c) then Squeeze(init) + [c]
      else if EndsInSpace(init) then Squeeze(init)
      else Squeeze(init) + " "
  }

  function CollapseWhitespace(s: string): string { Trim(Squeeze(s)) }

  // ----- words

  /** The words read so far, and whether the last one is still being read. */
  datatype Tokens = Tokens(words: seq<string>, open: bool) {
    predicate Valid() { open ==> words != [] }

    function Take(c: char): Tokens
      requires Valid()
    {
      if IsSpace(c) then Tokens(words, false)
      else if open then Tokens(words[..|words| - 1] + [words[|words| - 1] + [c]], true)
      else Tokens(words + [[c]], true)
    }
  }

  function Read(t: Tokens, s: string): (r: Tokens)
    requires t.Valid()
    ensures r.Valid()
  {
    if s == "" then t else Read(t, s[..|s| - 1]).Take(s[|s| - 1])
  }

  /** The maximal runs of characters that are no white space. */
  function Words(s: string): seq<string> { Read(Tokens([], false), s).words }

  predicate IsWordText(w: string) { w != "" && forall c :: c in w ==> !IsSpace(c) }

  lemma {:induction false} ReadHolds(s: string)
    ensures var t := Read(Tokens([], false), s);
            t.open == (s != "" && !EndsInSpace(s)) && forall i :: 0 <= i < |t.words| ==> IsWordText(t.words[i])
  {
    if s != "" {
      ReadHolds(s[..|s| - 1]);
    }
  }

  lemma {:induction false} ReadAppend(t: Tokens, a: string, b: string)
    requires t.Valid()
    ensures Read(t, a + b) == Read(Read(t, a), b)
  {
    if b == "" {
      assert a + b == a;
    } else {
      assert (a + b)[..|a + b| - 1] == a + b[..|b| - 1];
      ReadAppend(t, a, b[..|b| - 1]);
    }
  }

  /** Earlier words do not matter to later ones. */
  lemma {:induction false} ReadBehind(words: seq<string>, s: string)
    ensures Read(Tokens(words, false), s) ==
            Tokens(words + Read(Tokens([], false), s).words, Read(Tokens([], false), s).open)
  {
    if s == "" {
      assert words + [] == words;
    } else {
      ReadBehind(words, s[..|s| - 1]);
    }
  }

  /** White space between two texts separates their words. */
  lemma WordsAppend(a: string, space: char, b: string)
    requires IsSpace(space)
    ensures Words(a + [space] + b) == Words(a) + Words(b)
  {
    var t := Read(Tokens([], false), a);
    assert (a + [space])[..|a|] == a;
    assert Read(Tokens([], false), a + [space]) == Tokens(t.words, false);
    ReadAppend(Tokens([], false), a + [space], b);
    ReadBehind(t.words, b);
  }

  lemma {:induction false} ReadBlank(t: Tokens, blank: string)
    requires t.Valid() && AllSpace(blank)
    ensures Read(t, blank).words == t.words
  {
    if blank != "" {
      ReadBlank(t, blank[..|blank| - 1]);
    }
  }

  lemma WordsWithoutBlank(blank: string, s: string)
    requires AllSpace(blank)
    ensures Words(blank + s) == Words(s) && Words(s + blank) == Words(s)
  {
    ReadAppend(Tokens([], false), s, blank);
    ReadBlank(Read(Tokens([], false), s), blank);
    ReadAppend(Tokens([], false), blank, s);
    ReadBlank(Tokens([], false), blank);
    ReadHolds(blank);
    assert blank != "" ==> IsSpace(blank[|blank| - 1]);
  }

  /** Trimming keeps the words. */
  lemma WordsOfTrim(s: string)
    ensures Words(Trim(s)) == Words(s)
  {
    var before, after := TrimSplit(s);
    WordsWithoutBlank(before, Trim(s) + after);
    assert before + (Trim(s) + after) == before + Trim(s) + after;
    WordsWithoutBlank(after, Trim(s));
  }

  // ----- collapsing

  /** The squeezed text, from its words: single spaces between them, and one where the text begins or ends in
      white space. */
  function Shape(lead: string, t: Tokens): string {
    lead + Join(t.words, " ") + if t.words != [] && !t.open then " " else ""
  }

  function Lead(s: string): string { if s != "" && IsSpace(s[0]) then " " else "" }

  lemma JoinSnoc(words: seq<string>, w: string)
    ensures Join(words + [w], " ") == (if words == [] then "" else Join(words, " ") + " ") + w
  {
    assert (words + [w])[..|words|] == words;
  }

  lemma JoinGrow(init: seq<string>, w: string, c: char)
    ensures Join(init + [w + [c]], " ") == Join(init + [w], " ") + [c]
  {
    JoinSnoc(init, w);
    JoinSnoc(init, w + [c]);
    Associates(if init == [] then "" else Join(init, " ") + " ", w, [c]);
  }

  /** A character that is no white space is appended to the shape. */
  lemma ShapeOfWordChar(lead: string, t: Tokens, c: char)
    requires t.Valid() && !IsSpace(c)
    ensures Shape(lead, t.Take(c)) == Shape(lead, t) + [c]
  {
    if t.open {
      var init, w := t.words[..|t.words| - 1], t.words[|t.words| - 1];
      assert t.words == init + [w];
      JoinGrow(init, w, c);
    } else {
      JoinSnoc(t.words, [c]);
    }
  }

  lemma {:induction false} SqueezeIsShape(s: string)
    ensures Squeeze(s) == Shape(Lead(s), Read(Tokens([], false), s))
  {
    if s != "" {
      var init, c := s[..|s| - 1], s[|s| - 1];
      var t := Read(Tokens([], false), init);
      SqueezeIsShape(init);
      ReadHolds(init);
      if init == "" {
        assert t == Tokens([], false);
        if !IsSpace(c) {
          ShapeOfWordChar("", t, c);
        }
      } else {
        assert Lead(s) == Lead(init);
        if !IsSpace(c) {
          ShapeOfWordChar(Lead(init), t, c);
        }
      }
    }
  }

  lemma {:induction false} JoinOfWordsTrimmed(words: seq<string>)
    requires forall i :: 0 <= i < |words| ==> IsWordText(words[i])
    ensures Trimmed(Join(words, " "))
    ensures words != [] ==> Join(words, " ") != ""
  {
    if words != [] {
      var init, w := words[..|words| - 1], words[|words| - 1];
      assert words == init + [w] && IsWordText(w);
      assert w[0] in w && w[|w| - 1] in w;
      JoinOfWordsTrimmed(init);
      JoinSnoc(init, w);
    }
  }

  /** Theorem: collapsing white space keeps exactly the words, separated by single spaces. */
  lemma CollapseIsWords(s: string)
    ensures CollapseWhitespace(s) == Join(Words(s), " ")
  {
    var t := Read(Tokens([], false), s);
    SqueezeIsShape(s);
    ReadHolds(s);
    JoinOfWordsTrimmed(t.words);
    TrimOf(Lead(s), Join(t.words, " "), if t.words != [] && !t.open then " " else "");
  }

  lemma SameWordsCollapse(a: string, b: string)
    requires Words(a) == Words(b)
    ensures CollapseWhitespace(a) == CollapseWhitespace(b)
  {
    CollapseIsWords(a);
    CollapseIsWords(b);
  }
}
