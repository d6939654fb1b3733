/**
 * Worked examples of `escape_double_quotes`, derived from the general
 * lemmas about the scan rather than by evaluating it character by character.
 */
module QuotesExamples {
  import opened Quotes

  /** A match at the very start: the quote is doubled and the scan resumes after the match. */
  lemma MatchAtStart(x: char, y: char, t: string)
    requires Flank(x) && Flank(y)
    ensures EscapeDoubleQuotes([x, '"', y] + t) == Substitution(
      [x, '"', '"', y] + EscapeDoubleQuotes(t).text, EscapeDoubleQuotes(t).count + 1)
  {
    var s := [x, '"', y] + t;
    assert MatchAt(s, 0);
    SubnFromShift(s, 3, 0);
    assert s[3..] == t;
  }

  /**
   * Matches do not overlap: in `a"b"c` the first match consumes the `b`, so
   * the second quote is left alone although it stands between two letters.
   */
  lemma AdjacentQuotesExample()
    ensures EscapeDoubleQuotes("a\"b\"c") == Substitution("a\"\"b\"c", 1)
  {
  }

  /** The caret is excluded by the class as well: `x^"y` is left as it is. */
  lemma CaretExample()
    ensures EscapeDoubleQuotes("x^\"y") == Substitution("x^\"y", 0)
  {
  }

  /** The part of the route name that needs repair: `( "Rangaubahn" )`. */
  lemma RouteNameExample()
    ensures EscapeDoubleQuotes("\"Fürth  -  Zirndorf  -  Cadolzburg  ( \"Rangaubahn\" )\"")
         == Substitution("\"Fürth  -  Zirndorf  -  Cadolzburg  ( \"\"Rangaubahn\"\" )\"", 2)
  {
    var before, inner, after := "\"Fürth  -  Zirndorf  -  Cadolzburg  (", " \"Rangaubahn\" ", ")\"";
    assert "\"Fürth  -  Zirndorf  -  Cadolzburg  ( \"Rangaubahn\" )\"" == before + inner + after;
    assert "\"Fürth  -  Zirndorf  -  Cadolzburg  ( \"\"Rangaubahn\"\" )\"" == before + " \"\"Rangaubahn\"\" " + after;
    NoInnerQuoteUnchanged(before, 0);
    NoInnerQuoteUnchanged(after, 0);
    InnerExample();
    EscapeConcat(before, inner);
    EscapeConcat(before + inner, after);
  }

  lemma InnerExample()
    ensures EscapeDoubleQuotes(" \"Rangaubahn\" ") == Substitution(" \"\"Rangaubahn\"\" ", 2)
  {
    QuotedWord(' ', "Rangaubahn", ' ');
    assert [' ', '"'] + "Rangaubahn" + ['"', ' '] == " \"Rangaubahn\" ";
    assert [' ', '"', '"'] + "Rangaubahn" + ['"', '"', ' '] == " \"\"Rangaubahn\"\" ";
  }

  /**
   * A word of at least two flanking characters in quotes, between two more
   * flanking characters: both quotes are doubled. (With a one-character word
   * the first match would consume the second quote's left neighbour.)
   */
  lemma QuotedWord(x: char, w: string, y: char)
    requires Flank(x) && Flank(y) && |w| >= 2
    requires forall i :: 0 <= i < |w| ==> Flank(w[i])
    ensures EscapeDoubleQuotes([x, '"'] + w + ['"', y])
         == Substitution([x, '"', '"'] + w + ['"', '"', y], 2)
  {
    var t := w[1..] + ['"', y];
    assert [x, '"'] + w + ['"', y] == [x, '"', w[0]] + t;
    MatchAtStart(x, w[0], t);
    WordThenQuote(w[1..], y, 0);
    assert w[1..][0..] == w[1..];
    assert [x, '"', '"', w[0]] + (w[1..] + ['"', '"', y]) == [x, '"', '"'] + w + ['"', '"', y];
  }

  /**
   * A run of flanking characters followed by a quote and one more flanking
   * character: only that quote matches, and it is doubled.
   */
  lemma {:induction false} WordThenQuote(w: string, y: char, pos: nat)
    requires pos < |w| && Flank(y)
    requires forall i :: 0 <= i < |w| ==> Flank(w[i])
    ensures SubnFrom(w + ['"', y], pos) == Substitution(w[pos..] + ['"', '"', y], 1)
    decreases |w| - pos
  {
    var s := w + ['"', y];
    if pos == |w| - 1 {
      assert MatchAt(s, pos);
      assert SubnFrom(s, pos + 3) == Substitution([], 0);
      assert w[pos..] == [w[pos]];
    } else {
      assert s[pos + 1] == w[pos + 1];
      WordThenQuote(w, y, pos + 1);
      assert w[pos..] == [w[pos]] + w[pos + 1..];
    }
  }

  /** A CSV field in quotes. */
  function Quoted(body: string): string {
    "\"" + body + "\""
  }

  /** A quoted field with no quote inside it is left unchanged. */
  lemma QuotedUnchanged(body: string)
    requires '"' !in body
    ensures EscapeDoubleQuotes(Quoted(body)) == Substitution(Quoted(body), 0)
  {
    var s := Quoted(body);
    forall j | 0 < j < |s| - 1 ensures s[j] != '"' {
      assert s[j] == body[j - 1];
    }
    NoInnerQuoteUnchanged(s, 0);
  }

  /**
   * The record from the comment in `escape_double_quotes`, field by field,
   * and the repaired record the comment gives for it.
   */
  const Record := Quoted("2-11-B-j23-1") + "," + Quoted("") + "," + Quoted("RB 11") + ","
    + "\"Fürth  -  Zirndorf  -  Cadolzburg  ( \"Rangaubahn\" )\"" + ","
    + Quoted("2") + "," + Quoted("2A9F6F") + "," + Quoted("000000")
  const RepairedRecord := Quoted("2-11-B-j23-1") + "," + Quoted("") + "," + Quoted("RB 11") + ","
    + "\"Fürth  -  Zirndorf  -  Cadolzburg  ( \"\"Rangaubahn\"\" )\"" + ","
    + Quoted("2") + "," + Quoted("2A9F6F") + "," + Quoted("000000")

  /** Escaping the example record doubles the two quotes around the name and nothing else. */
  lemma RangaubahnExample()
    ensures EscapeDoubleQuotes(Record) == Substitution(RepairedRecord, 2)
  {
    QuotedUnchanged("2-11-B-j23-1");
    QuotedUnchanged("");
    QuotedUnchanged("RB 11");
    RouteNameExample();
    QuotedUnchanged("2");
    QuotedUnchanged("2A9F6F");
    QuotedUnchanged("000000");
    var p1 := Quoted("2-11-B-j23-1");
    EscapeAroundSeparator(p1, ',', Quoted(""));
    var p2 := p1 + "," + Quoted("");
    EscapeAroundSeparator(p2, ',', Quoted("RB 11"));
    var p3 := p2 + "," + Quoted("RB 11");
    EscapeAroundSeparator(p3, ',', "\"Fürth  -  Zirndorf  -  Cadolzburg  ( \"Rangaubahn\" )\"");
    var p4 := p3 + "," + "\"Fürth  -  Zirndorf  -  Cadolzburg  ( \"Rangaubahn\" )\"";
    EscapeAroundSeparator(p4, ',', Quoted("2"));
    var p5 := p4 + "," + Quoted("2");
    EscapeAroundSeparator(p5, ',', Quoted("2A9F6F"));
    var p6 := p5 + "," + Quoted("2A9F6F");
    EscapeAroundSeparator(p6, ',', Quoted("000000"));
  }
}
