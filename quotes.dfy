/**
 * `escape_double_quotes`: one `re.subn` with the pattern
 * `([^,^"^\n])"([^,^"^\n])` and the replacement `\1""\2`, written out as
 * the left-to-right, non-overlapping scan the regular-expression engine
 * performs.
 */
module Quotes {
  import opened GtfsBase

  /**
   * A character the class `[^,^"^\n]` accepts on either side of the quote:
   * anything except a comma, a caret, a double quote and a newline.
   */
  predicate Flank(c: char) {
    c != ',' && c != '^' && c != '"' && c != '\n'
  }

  /** The pattern matches the three characters starting at `pos`. */
  predicate MatchAt(s: string, pos: nat) {
    pos + 3 <= |s| && Flank(s[pos]) && s[pos + 1] == '"' && Flank(s[pos + 2])
  }

  /** What `re.subn` returns: the new text and the number of replacements. */
  datatype Substitution = Substitution(text: string, count: nat)

  /**
   * The substitution from search position `pos` on: a match at `pos` emits
   * its first character, two quotes and its last character and resumes after
   * the match; otherwise one character is copied and the search moves on by one.
   */
  function SubnFrom(s: string, pos: nat): (r: Substitution)
    requires pos <= |s|
    ensures |r.text| == |s| - pos + r.count
    decreases |s| - pos
  {
    if MatchAt(s, pos) then
      var rest := SubnFrom(s, pos + 3);
      Substitution([s[pos], '"', '"', s[pos + 2]] + rest.text, rest.count + 1)
    else if pos < |s| then
      var rest := SubnFrom(s, pos + 1);
      Substitution([s[pos]] + rest.text, rest.count)
    else
      Substitution([], 0)
  }

  /** `re.subn(pattern, r'\1""\2', string)`. */
  function EscapeDoubleQuotes(s: string): (r: Substitution)
    ensures |r.text| == |s| + r.count
  {
    SubnFrom(s, 0)
  }

  /**
   * The whole of `escape_double_quotes`: decode the entry, escape, return the
   * text. It fails only when the entry is not valid UTF-8.
   */
  function EscapeDoubleQuotesFile(file: Bytes, lib: Library): (r: Result<string>)
    ensures r.Success? <==> lib.decodeUtf8(file).Some?
    ensures r.Success? ==> |r.value| >= |lib.decodeUtf8(file).value|
    ensures r.Success? ==> r.value == Pieces(lib.decodeUtf8(file).value, 0)
  {
    match lib.decodeUtf8(file)
    case None => Failure(DecodeError)
    case Some(text) =>
      EscapeIsPieces(text);
      Success(EscapeDoubleQuotes(text).text)
  }

  // ---------------------------------------------------------------------
  // A declarative account of which quotes get doubled

  /** The quote at `j` stands between two flanking characters. */
  predicate Candidate(s: string, j: nat) {
    0 < j < |s| - 1 && Flank(s[j - 1]) && s[j] == '"' && Flank(s[j + 1])
  }

  /**
   * The quote at `j` is doubled: it is a candidate, and the candidate two
   * places before it was not doubled (that match consumed the character
   * between them, so no match can start there).
   */
  predicate Doubled(s: string, j: nat)
    decreases j
  {
    Candidate(s, j) && !(j >= 2 && Doubled(s, j - 2))
  }

  /** What the character at `j` becomes in the output. */
  function Piece(s: string, j: nat): string
    requires j < |s|
  {
    if Doubled(s, j) then "\"\"" else [s[j]]
  }

  /** The output for positions `from` onwards, piece by piece. */
  function Pieces(s: string, from: nat): string
    requires from <= |s|
    decreases |s| - from
  {
    if from == |s| then [] else Piece(s, from) + Pieces(s, from + 1)
  }

  /** The positions at or after `from` whose quote is doubled. */
  function DoubledFrom(s: string, from: nat): set<nat> {
    set j: nat | from <= j < |s| && Doubled(s, j)
  }

  /** A character other than a quote is never doubled. */
  lemma NotQuoteNotDoubled(s: string, j: nat)
    requires j < |s| && s[j] != '"'
    ensures !Doubled(s, j)
  {
  }

  /** At a match, the quote is doubled and neither neighbour nor the next character is. */
  lemma MatchDoubled(s: string, pos: nat)
    requires MatchAt(s, pos)
    requires pos >= 1 ==> !Doubled(s, pos - 1)
    ensures !Doubled(s, pos) && Doubled(s, pos + 1) && !Doubled(s, pos + 2) && !Doubled(s, pos + 3)
  {
    NotQuoteNotDoubled(s, pos);
    NotQuoteNotDoubled(s, pos + 2);
    assert Candidate(s, pos + 1);
  }

  /** At a match, the output is the first neighbour, two quotes and the second neighbour. */
  lemma MatchPieces(s: string, pos: nat)
    requires pos + 3 <= |s|
    requires !Doubled(s, pos) && Doubled(s, pos + 1) && !Doubled(s, pos + 2)
    ensures Pieces(s, pos) == [s[pos], '"', '"', s[pos + 2]] + Pieces(s, pos + 3)
  {
    var rest := Pieces(s, pos + 3);
    assert Piece(s, pos) == [s[pos]];
    assert Piece(s, pos + 1) == "\"\"";
    assert Piece(s, pos + 2) == [s[pos + 2]];
    assert Pieces(s, pos + 2) == [s[pos + 2]] + rest;
    assert Pieces(s, pos + 1) == "\"\"" + ([s[pos + 2]] + rest);
    assert Pieces(s, pos) == [s[pos]] + ("\"\"" + ([s[pos + 2]] + rest));
    assert [s[pos]] + ("\"\"" + ([s[pos + 2]] + rest)) == [s[pos], '"', '"', s[pos + 2]] + rest;
  }

  lemma MatchDoubledFrom(s: string, pos: nat)
    requires pos + 3 <= |s|
    requires !Doubled(s, pos) && Doubled(s, pos + 1) && !Doubled(s, pos + 2)
    ensures DoubledFrom(s, pos) == {pos + 1} + DoubledFrom(s, pos + 3)
  {
  }

  /** Where no match starts, the character is copied and the next one is not doubled. */
  lemma CopyPieces(s: string, pos: nat)
    requires pos < |s| && !MatchAt(s, pos)
    requires !Doubled(s, pos)
    ensures !Doubled(s, pos + 1)
    ensures Pieces(s, pos) == [s[pos]] + Pieces(s, pos + 1)
    ensures DoubledFrom(s, pos) == DoubledFrom(s, pos + 1)
  {
    assert !Candidate(s, pos + 1);
  }

  /**
   * The scan agrees with the declarative account from every search position
   * at which neither the previous nor the current character is a doubled quote.
   */
  lemma {:induction false} SubnFromIsPieces(s: string, pos: nat)
    requires pos <= |s|
    requires pos >= 1 ==> !Doubled(s, pos - 1)
    requires !Doubled(s, pos)
    ensures SubnFrom(s, pos).text == Pieces(s, pos)
    ensures SubnFrom(s, pos).count == |DoubledFrom(s, pos)|
    decreases |s| - pos
  {
    if MatchAt(s, pos) {
      MatchDoubled(s, pos);
      MatchPieces(s, pos);
      MatchDoubledFrom(s, pos);
      SubnFromIsPieces(s, pos + 3);
    } else if pos < |s| {
      CopyPieces(s, pos);
      SubnFromIsPieces(s, pos + 1);
    } else {
      assert DoubledFrom(s, pos) == {};
    }
  }

  /**
   * `escape_double_quotes` replaces exactly the doubled quotes by two quotes,
   * copies every other character, and counts the doubled quotes.
   */
  lemma EscapeIsPieces(s: string)
    ensures EscapeDoubleQuotes(s).text == Pieces(s, 0)
    ensures EscapeDoubleQuotes(s).count == |DoubledFrom(s, 0)|
  {
    SubnFromIsPieces(s, 0);
  }

  /** A doubled quote is flanked by accepted characters on both sides, and two doubled quotes are never two places apart. */
  lemma DoubledIsFlankedAndApart(s: string, j: nat)
    requires Doubled(s, j)
    ensures 0 < j < |s| - 1 && s[j] == '"' && Flank(s[j - 1]) && Flank(s[j + 1])
    ensures !Doubled(s, j + 2)
  {
  }

  lemma {:induction false} PiecesHead(s: string, from: nat)
    requires from < |s|
    requires !Doubled(s, from)
    ensures |Pieces(s, from)| > 0 && Pieces(s, from)[0] == s[from]
  {
  }

  lemma {:induction false} PiecesLast(s: string, from: nat)
    requires from < |s|
    ensures |Pieces(s, from)| > 0 && Pieces(s, from)[|Pieces(s, from)| - 1] == s[|s| - 1]
    decreases |s| - from
  {
    if from + 1 < |s| {
      PiecesLast(s, from + 1);
    } else {
      assert !Doubled(s, from);
    }
  }

  /**
   * A quote at the very start or end of the text is never doubled: the first
   * and last characters of the output are those of the input.
   */
  lemma EscapeKeepsEnds(s: string)
    requires |s| > 0
    ensures var t := EscapeDoubleQuotes(s).text;
      |t| > 0 && t[0] == s[0] && t[|t| - 1] == s[|s| - 1]
  {
    EscapeIsPieces(s);
    PiecesHead(s, 0);
    PiecesLast(s, 0);
  }

  /**
   * Text whose only quotes, if any, stand at its very start or end comes back
   * unchanged, with count zero: no match can take place.
   */
  lemma {:induction false} NoInnerQuoteUnchanged(s: string, pos: nat)
    requires pos <= |s|
    requires forall j :: pos < j < |s| - 1 ==> s[j] != '"'
    ensures SubnFrom(s, pos) == Substitution(s[pos..], 0)
    decreases |s| - pos
  {
    if pos < |s| {
      NoInnerQuoteUnchanged(s, pos + 1);
      assert s[pos..] == [s[pos]] + s[pos + 1..];
    }
  }

  // ---------------------------------------------------------------------
  // The scan is local: it can be cut where no match straddles the cut

  /** No match covers both the character before `k` and the one at `k`. */
  predicate SeparableAt(s: string, k: nat) {
    !(k >= 2 && MatchAt(s, k - 2)) && !(k >= 1 && MatchAt(s, k - 1))
  }

  /** The scan from an absolute position ignores everything before `k`. */
  lemma {:induction false} SubnFromShift(s: string, k: nat, pos: nat)
    requires k + pos <= |s|
    ensures SubnFrom(s, k + pos) == SubnFrom(s[k..], pos)
    decreases |s| - k - pos
  {
    var t := s[k..];
    assert MatchAt(s, k + pos) == MatchAt(t, pos);
    if MatchAt(s, k + pos) {
      SubnFromShift(s, k, pos + 3);
    } else if k + pos < |s| {
      SubnFromShift(s, k, pos + 1);
    }
  }

  /** Before a separable position, matches in the text and in its prefix coincide. */
  lemma PrefixMatchAt(s: string, k: nat, pos: nat)
    requires pos < k <= |s|
    requires SeparableAt(s, k)
    ensures MatchAt(s[..k], pos) == MatchAt(s, pos)
    ensures MatchAt(s, pos) ==> pos + 3 <= k
  {
  }

  /** Joining a common head onto both sides of a split keeps the split. */
  lemma JoinHead(head: string, whole: Substitution, part: Substitution, tail: Substitution, n: nat)
    requires whole.text == part.text + tail.text && whole.count == part.count + tail.count
    ensures head + whole.text == (head + part.text) + tail.text
    ensures whole.count + n == (part.count + n) + tail.count
  {
  }

  /** One step of the scan on the text and on its prefix before `k`, at a match. */
  lemma CutMatchStep(s: string, k: nat, pos: nat)
    requires pos < k <= |s| && MatchAt(s, pos) && MatchAt(s[..k], pos)
    ensures SubnFrom(s, pos) ==
      Substitution([s[pos], '"', '"', s[pos + 2]] + SubnFrom(s, pos + 3).text, SubnFrom(s, pos + 3).count + 1)
    ensures SubnFrom(s[..k], pos) ==
      Substitution([s[pos], '"', '"', s[pos + 2]] + SubnFrom(s[..k], pos + 3).text, SubnFrom(s[..k], pos + 3).count + 1)
  {
  }

  /** One step of the scan on the text and on its prefix before `k`, without a match. */
  lemma CutCopyStep(s: string, k: nat, pos: nat)
    requires pos < k <= |s| && !MatchAt(s, pos) && !MatchAt(s[..k], pos)
    ensures SubnFrom(s, pos) == Substitution([s[pos]] + SubnFrom(s, pos + 1).text, SubnFrom(s, pos + 1).count)
    ensures SubnFrom(s[..k], pos) ==
      Substitution([s[pos]] + SubnFrom(s[..k], pos + 1).text, SubnFrom(s[..k], pos + 1).count)
  {
  }

  /** The scan up to a separable position depends only on the text before it. */
  lemma {:induction false} SubnFromCut(s: string, k: nat, pos: nat)
    requires pos <= k <= |s|
    requires SeparableAt(s, k)
    ensures SubnFrom(s, pos).text == SubnFrom(s[..k], pos).text + SubnFrom(s, k).text
    ensures SubnFrom(s, pos).count == SubnFrom(s[..k], pos).count + SubnFrom(s, k).count
    decreases k - pos, 1
  {
    if pos < k {
      PrefixMatchAt(s, k, pos);
      if MatchAt(s, pos) {
        CutAtMatch(s, k, pos);
      } else {
        CutAtCopy(s, k, pos);
      }
    } else {
      assert s[..k][k..] == [];
    }
  }

  /** `SubnFromCut` at a position where the pattern matches. */
  lemma {:induction false} CutAtMatch(s: string, k: nat, pos: nat)
    requires pos < k <= |s| && SeparableAt(s, k)
    requires MatchAt(s, pos) && MatchAt(s[..k], pos) && pos + 3 <= k
    ensures SubnFrom(s, pos).text == SubnFrom(s[..k], pos).text + SubnFrom(s, k).text
    ensures SubnFrom(s, pos).count == SubnFrom(s[..k], pos).count + SubnFrom(s, k).count
    decreases k - pos, 0
  {
    SubnFromCut(s, k, pos + 3);
    CutMatchStep(s, k, pos);
    JoinHead([s[pos], '"', '"', s[pos + 2]], SubnFrom(s, pos + 3), SubnFrom(s[..k], pos + 3), SubnFrom(s, k), 1);
  }

  /** `SubnFromCut` at a position where the pattern does not match. */
  lemma {:induction false} CutAtCopy(s: string, k: nat, pos: nat)
    requires pos < k <= |s| && SeparableAt(s, k)
    requires !MatchAt(s, pos) && !MatchAt(s[..k], pos)
    ensures SubnFrom(s, pos).text == SubnFrom(s[..k], pos).text + SubnFrom(s, k).text
    ensures SubnFrom(s, pos).count == SubnFrom(s[..k], pos).count + SubnFrom(s, k).count
    decreases k - pos, 0
  {
    SubnFromCut(s, k, pos + 1);
    CutCopyStep(s, k, pos);
    JoinHead([s[pos]], SubnFrom(s, pos + 1), SubnFrom(s[..k], pos + 1), SubnFrom(s, k), 0);
  }

  /**
   * Escaping two texts joined where no match straddles the join is escaping
   * each of them and joining the results.
   */
  lemma EscapeConcat(a: string, b: string)
    requires SeparableAt(a + b, |a|)
    ensures EscapeDoubleQuotes(a + b) == Substitution(
      EscapeDoubleQuotes(a).text + EscapeDoubleQuotes(b).text,
      EscapeDoubleQuotes(a).count + EscapeDoubleQuotes(b).count)
  {
    SubnFromCut(a + b, |a|, 0);
    assert (a + b)[..|a|] == a;
    SubnFromShift(a + b, |a|, 0);
    assert (a + b)[|a|..] == b;
  }

  /**
   * A character the class rejects cannot be part of a match on either side,
   * so the text can be escaped in two halves around it; in particular a
   * comma-separated record field by field, and a file line by line.
   */
  lemma EscapeAroundSeparator(a: string, c: char, b: string)
    requires !Flank(c) && c != '"'
    ensures EscapeDoubleQuotes(a + [c] + b) == Substitution(
      EscapeDoubleQuotes(a).text + [c] + EscapeDoubleQuotes(b).text,
      EscapeDoubleQuotes(a).count + EscapeDoubleQuotes(b).count)
  {
    var cb := [c] + b;
    assert a + [c] + b == a + cb;
    EscapeConcat(a, cb);
    SubnFromShift(cb, 1, 0);
    assert cb[1..] == b;
  }
}
