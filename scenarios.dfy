/**
 * Label extraction on annotation texts of a given shape: how the separator
 * treats a two-word phrase joined to a word by ` and `, and a middle word that
 * is not exactly `and`.
 */
module Scenarios {
  import opened Wrappers
  import opened Text
  import opened Labels
  import opened Dataset
  import opened Search

  /** A character that is neither white space, `,` nor `;`. */
  predicate Plain(c: char) {
    !IsSpace(c) && c != ',' && c != ';'
  }

  /** A non-empty word of plain characters. */
  predicate PlainWord(w: string) {
    w != [] && forall i | 0 <= i < |w| :: Plain(w[i])
  }

  /** A non-empty word of lower-case letters. */
  predicate LowerWord(w: string) {
    w != [] && forall i | 0 <= i < |w| :: IsLowerLetter(w[i])
  }

  /** A lower-case word with its first letter upper-cased. */
  function Cap(w: string): string
    requires w != []
  {
    [ToUpper(w[0])] + w[1..]
  }

  /** No separator starts at a plain character. */
  lemma PlainCharNoMatch(pat: Pattern, t: string)
    requires t != [] && Plain(t[0])
    ensures MatchLen(pat, t) == 0
  {
    assert SpaceRun(t) == 0;
  }

  /**
   * A space before a plain word that is not exactly `and`, followed by the end
   * or by white space, starts no separator.
   */
  lemma SpaceWordNoMatch(w: string, rest: string)
    requires PlainWord(w) && w != "and"
    requires rest == [] || IsSpace(rest[0])
    ensures MatchLen(StrategySeparator, " " + w + rest) == 0
  {
    var t := " " + w + rest;
    assert t[1..][0] == w[0];
    assert SpaceRun(t[1..]) == 0;
    assert SpaceRun(t) == 1;
    if |w| == 3 {
      assert t[1..4] == w;
    } else if |w| > 3 {
      assert t[4] == w[3];
    } else if 4 < |t| {
      assert t[1..4][|w|] == t[|w| + 1] == rest[0];
    }
  }

  /** ` and ` followed by a plain character is a separator match of five characters. */
  lemma AndMatch(t: string)
    requires |t| >= 6 && t[..5] == " and " && Plain(t[5])
    ensures MatchLen(StrategySeparator, t) == 5
  {
    assert t[0] == ' ' && t[1] == 'a' && t[4] == ' ' by {
      assert t[..5][0] == t[0] && t[..5][1] == t[1] && t[..5][4] == t[4];
    }
    assert t[1..][0] == t[1];
    assert SpaceRun(t[1..]) == 0;
    assert SpaceRun(t) == 1;
    assert t[1..4] == t[..5][1..4];
    var u := t[4..];
    assert u[0] == ' ' && u[1..][0] == t[5];
    assert SpaceRun(u[1..]) == 0;
    assert SpaceRun(u) == 1;
  }

  /** A plain word is split by neither pattern. */
  lemma PlainWordSplit(w: string, pat: Pattern)
    requires PlainWord(w)
    ensures Split(w, pat) == [w]
  {
    forall i | 0 <= i < |w| ensures NoMatchAt(pat, w, i) {
      assert w[i..][0] == w[i];
      PlainCharNoMatch(pat, w[i..]);
    }
    SplitWithoutSeparator(w, pat);
  }

  /** A lower-case word is capitalised by upper-casing its first letter alone. */
  lemma LowerWordCapitalized(w: string)
    requires LowerWord(w)
    ensures Capitalize(w) == Cap(w)
  {
    assert LowerAll(w[1..]) == w[1..] by {
      forall i | 0 <= i < |w| - 1 ensures LowerAll(w[1..])[i] == w[1..][i] {
        assert w[1..][i] == w[i + 1];
      }
    }
  }

  /** A lower-case word is trimmed, and `capitalizeStrategy` upper-cases its first letter. */
  lemma NormalizeOneWord(w: string)
    requires LowerWord(w)
    ensures Trim(w) == w
    ensures Normalize(w) == Cap(w)
  {
    PlainWordSplit(w, Whitespace);
    assert CapitalizeAll([w]) == [Capitalize(w)];
    LowerWordCapitalized(w);
  }

  /** Two lower-case words separated by one space are trimmed, and `capitalizeStrategy` upper-cases each. */
  lemma NormalizeTwoWords(a: string, b: string)
    requires LowerWord(a) && LowerWord(b)
    ensures Trim(a + " " + b) == a + " " + b
    ensures Normalize(a + " " + b) == Cap(a) + " " + Cap(b)
  {
    TwoWordsTrimmed(a, b);
    TwoWordsSplit(a, b);
    var r := CapitalizeAll([a, b]);
    assert Normalize(a + " " + b) == Join(r);
    assert Join(r) == r[0] + " " + r[1] by {
      assert |r[1..]| == 1 && r[1..][0] == r[1];
    }
    assert r[0] == Capitalize(a) && r[1] == Capitalize(b);
    LowerWordCapitalized(a);
    LowerWordCapitalized(b);
  }

  /** Two lower-case words joined by one space are already trimmed. */
  lemma TwoWordsTrimmed(a: string, b: string)
    requires LowerWord(a) && LowerWord(b)
    ensures Trim(a + " " + b) == a + " " + b
  {
    var s := a + " " + b;
    assert IsLowerLetter(a[0]) && IsLowerLetter(b[|b| - 1]);
    assert !IsSpace(s[0]) && !IsSpace(s[|s| - 1]) by {
      assert s[0] == a[0] && s[|s| - 1] == b[|b| - 1];
    }
  }

  /** Two lower-case words joined by one space split into the two words. */
  lemma TwoWordsSplit(a: string, b: string)
    requires LowerWord(a) && LowerWord(b)
    ensures Split(a + " " + b, Whitespace) == [a, b]
  {
    var s := a + " " + b;
    forall i | 0 <= i < |a| ensures NoMatchAt(Whitespace, s, i) {
      assert s[i..][0] == a[i];
      PlainCharNoMatch(Whitespace, s[i..]);
    }
    assert MatchLen(Whitespace, " " + b) == 1 by {
      assert (" " + b)[1..] == b;
      assert SpaceRun(b) == 0;
    }
    SplitAtFirstSeparator(a, " ", b, Whitespace);
    PlainWordSplit(b, Whitespace);
  }

  /** The labels of two pieces are the labels of each. */
  lemma TwoPieces(a: string, b: string)
    ensures PieceLabels([a, b]) == PieceLabel(a) + PieceLabel(b)
  {
    assert [a, b][..1] == [a];
    assert [a][..0] == [];
    assert UnionOver([a, b], PieceLabel) == UnionOver([a], PieceLabel) + PieceLabel(b);
    assert UnionOver([a], PieceLabel) == UnionOver([], PieceLabel) + PieceLabel(a);
  }

  /**
   * No separator starts inside `"<w1> <w2>"` when the middle word is not
   * exactly `and` and what follows is the end or white space.
   */
  lemma PhraseNoMatch(w1: string, w2: string, rest: string)
    requires PlainWord(w1) && PlainWord(w2) && w2 != "and"
    requires rest == [] || IsSpace(rest[0])
    ensures NoMatchBefore(StrategySeparator, w1 + " " + w2 + rest, |w1 + " " + w2|)
  {
    var s := w1 + " " + w2 + rest;
    forall i | 0 <= i < |w1 + " " + w2| ensures NoMatchAt(StrategySeparator, s, i) {
      if i < |w1| {
        assert s[i..][0] == w1[i];
        PlainCharNoMatch(StrategySeparator, s[i..]);
      } else if i == |w1| {
        assert s[i..] == " " + w2 + rest;
        SpaceWordNoMatch(w2, rest);
      } else {
        assert s[i..][0] == w2[i - |w1| - 1];
        PlainCharNoMatch(StrategySeparator, s[i..]);
      }
    }
  }

  /**
   * `"<w1> <w2> and <w3>"` splits only at ` and `: the space inside the
   * two-word phrase does not separate, unless the middle word is `and` itself.
   */
  lemma PhraseAndWordSplit(w1: string, w2: string, w3: string)
    requires LowerWord(w1) && LowerWord(w2) && LowerWord(w3) && w2 != "and"
    ensures Split(w1 + " " + w2 + " and " + w3, StrategySeparator) == [w1 + " " + w2, w3]
  {
    var a, d, b := w1 + " " + w2, " and ", w3;
    assert a + d + b == w1 + " " + w2 + (d + b);
    assert PlainWord(w1) && PlainWord(w2) && PlainWord(w3);
    PhraseNoMatch(w1, w2, d + b);
    assert (d + b)[..5] == d && (d + b)[5] == w3[0];
    AndMatch(d + b);
    SplitAtFirstSeparator(a, d, b, StrategySeparator);
    PlainWordSplit(b, StrategySeparator);
  }

  /**
   * `"<w1> <w2> and <w3>"` yields exactly the labels `"<W1> <W2>"` and
   * `"<W3>"`: for "shows empathy and patience", "Shows Empathy" and "Patience".
   */
  lemma PhraseAndWordLabels(w1: string, w2: string, w3: string)
    requires LowerWord(w1) && LowerWord(w2) && LowerWord(w3) && w2 != "and"
    ensures TextLabels(w1 + " " + w2 + " and " + w3) == {Cap(w1) + " " + Cap(w2), Cap(w3)}
  {
    PhraseAndWordSplit(w1, w2, w3);
    TwoPieces(w1 + " " + w2, w3);
    NormalizeTwoWords(w1, w2);
    NormalizeOneWord(w3);
  }

  /** Upper-casing the first letter keeps lower-case words apart. */
  lemma CapInjective(v: string, w: string)
    requires LowerWord(v) && LowerWord(w) && Cap(v) == Cap(w)
    ensures v == w
  {
    assert Cap(v)[0] == ToUpper(v[0]) && Cap(w)[0] == ToUpper(w[0]);
    assert v[1..] == Cap(v)[1..] == Cap(w)[1..] == w[1..];
    assert v == [v[0]] + v[1..] && w == [w[0]] + w[1..];
  }

  /**
   * Selecting the second word of the phrase alone does not find a record
   * annotated `"<w1> <w2> and <w3>"` (unless it is also the last word), while
   * selecting the whole phrase does: "Empathy" does not find "shows empathy
   * and patience", "Shows Empathy" does.
   */
  lemma PhraseWordAloneNotFound(w1: string, w2: string, w3: string)
    requires LowerWord(w1) && LowerWord(w2) && LowerWord(w3) && w2 != "and" && w2 != w3
    ensures var r := Record(None, Some([Annotation(Some(w1 + " " + w2 + " and " + w3))]));
      !Matches(r, map[], {Cap(w2)}) && Matches(r, map[], {Cap(w1) + " " + Cap(w2)})
  {
    var text := w1 + " " + w2 + " and " + w3;
    var anns := [Annotation(Some(text))];
    PhraseAndWordLabels(w1, w2, w3);
    assert anns[..0] == [];
    assert RecordLabels(anns) == UnionOver(anns[..0], AnnotationLabels) + AnnotationLabels(anns[0]);
    assert |Cap(w2)| < |Cap(w1) + " " + Cap(w2)|;
    if Cap(w2) == Cap(w3) {
      CapInjective(w2, w3);
    }
  }

  /**
   * The `and` alternative matches only the lower-case word: `"<w1> <w2> <w3>"`
   * with a middle word other than `and` (such as `AND`) is one piece.
   */
  lemma NonAndPhraseSplit(w1: string, w2: string, w3: string)
    requires PlainWord(w1) && PlainWord(w2) && PlainWord(w3) && w2 != "and"
    ensures Split(w1 + " " + w2 + " " + w3, StrategySeparator) == [w1 + " " + w2 + " " + w3]
  {
    var s := w1 + " " + w2 + " " + w3;
    var j := |w1| + 1 + |w2|;
    assert s == w1 + " " + w2 + (" " + w3);
    PhraseNoMatch(w1, w2, " " + w3);
    forall i | j <= i < |s| ensures NoMatchAt(StrategySeparator, s, i) {
      if i == j {
        assert s[i..] == " " + w3 + [];
        if w3 == "and" {
          assert |s[i..]| == 4;
          assert SpaceRun(s[i..][1..]) == 0 by {
            assert s[i..][1..][0] == w3[0];
          }
        } else {
          SpaceWordNoMatch(w3, []);
        }
      } else {
        assert s[i..][0] == w3[i - j - 1];
        PlainCharNoMatch(StrategySeparator, s[i..]);
      }
    }
    SplitWithoutSeparator(s, StrategySeparator);
  }

  /**
   * A comma swallows only the white space after it: in `"<w1> ,<w2>"` the
   * space before the comma stays in the first piece (unlike `;`, whose
   * alternative takes white space on both sides).
   */
  lemma CommaKeepsSpaceBefore(w1: string, w2: string)
    requires PlainWord(w1) && PlainWord(w2)
    ensures Split(w1 + " ," + w2, StrategySeparator) == [w1 + " ", w2]
  {
    var a, d, b := w1 + " ", ",", w2;
    var s := a + d + b;
    assert s == w1 + " ," + w2;
    forall i | 0 <= i < |a| ensures NoMatchAt(StrategySeparator, s, i) {
      if i < |w1| {
        assert s[i..][0] == w1[i];
        PlainCharNoMatch(StrategySeparator, s[i..]);
      } else {
        var t := s[i..];
        assert t[0] == ' ' && t[1] == ',';
        assert t[1..][0] == ',';
        assert SpaceRun(t[1..]) == 0;
        assert SpaceRun(t) == 1;
      }
    }
    assert MatchLen(StrategySeparator, d + b) == 1 by {
      assert (d + b)[1..] == b;
      assert SpaceRun(b) == 0;
    }
    SplitAtFirstSeparator(a, d, b, StrategySeparator);
    PlainWordSplit(b, StrategySeparator);
  }

  /** A list `"<w1>, <w2> and <w3>"` splits into its three words. */
  lemma CommaAndList(w1: string, w2: string, w3: string)
    requires PlainWord(w1) && PlainWord(w2) && PlainWord(w3)
    ensures Split(w1 + ", " + w2 + " and " + w3, StrategySeparator) == [w1, w2, w3]
  {
    var rest := w2 + " and " + w3;
    var s := w1 + ", " + rest;
    assert s == w1 + ", " + w2 + " and " + w3;
    forall i | 0 <= i < |w1| ensures NoMatchAt(StrategySeparator, s, i) {
      assert s[i..][0] == w1[i];
      PlainCharNoMatch(StrategySeparator, s[i..]);
    }
    assert MatchLen(StrategySeparator, ", " + rest) == 2 by {
      var t := ", " + rest;
      assert t[1..] == " " + rest;
      assert t[1..][1..] == rest && rest[0] == w2[0];
      assert SpaceRun(rest) == 0;
      assert SpaceRun(t[1..]) == 1;
    }
    SplitAtFirstSeparator(w1, ", ", rest, StrategySeparator);
    forall i | 0 <= i < |w2| ensures NoMatchAt(StrategySeparator, rest, i) {
      assert rest[i..][0] == w2[i];
      PlainCharNoMatch(StrategySeparator, rest[i..]);
    }
    var d := " and ";
    assert rest == w2 + d + w3;
    assert (d + w3)[..5] == d && (d + w3)[5] == w3[0];
    AndMatch(d + w3);
    SplitAtFirstSeparator(w2, d, w3, StrategySeparator);
    PlainWordSplit(w3, StrategySeparator);
    assert Split(rest, StrategySeparator) == [w2, w3];
    assert Split(s, StrategySeparator) == [w1] + [w2, w3];
  }
}
