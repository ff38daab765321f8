/**
 * The JavaScript string operations the explorer applies to strategy annotations:
 * the `\s` character class, `String.prototype.split` with the two regular
 * expressions the page uses, `trim`, and the word capitalisation of
 * `capitalizeStrategy`.
 */
module Text {

  /** JavaScript's `\s`: the WhiteSpace and LineTerminator code points of ECMA-262. */
  predicate IsSpace(c: char) {
    || c == ' ' || c == '\t' || c == '\n' || c == '\U{000B}' || c == '\U{000C}' || c == '\r'
    || c == '\U{00A0}' || c == '\U{1680}' || ('\U{2000}' <= c <= '\U{200A}')
    || c == '\U{2028}' || c == '\U{2029}' || c == '\U{202F}' || c == '\U{205F}'
    || c == '\U{3000}' || c == '\U{FEFF}'
  }

  predicate IsLowerLetter(c: char) { 'a' <= c <= 'z' }

  predicate IsUpperLetter(c: char) { 'A' <= c <= 'Z' }

  /** `toUpperCase` on one character (ASCII letters only). */
  function ToUpper(c: char): (u: char)
    ensures !IsLowerLetter(u)
    ensures ToLower(u) == ToLower(c)
    ensures IsSpace(u) == IsSpace(c)
    ensures !IsLowerLetter(c) ==> u == c
  {
    if IsLowerLetter(c) then (c as int - 32) as char else c
  }

  /** `toLowerCase` on one character (ASCII letters only). */
  function ToLower(c: char): (l: char)
    ensures !IsUpperLetter(l)
    ensures IsSpace(l) == IsSpace(c)
    ensures !IsUpperLetter(c) ==> l == c
  {
    if IsUpperLetter(c) then (c as int + 32) as char else c
  }

  /** Upper- and lower-casing are inverse on the ASCII letters. */
  lemma CaseInverse(c: char)
    ensures IsUpperLetter(c) ==> IsLowerLetter(ToLower(c)) && ToUpper(ToLower(c)) == c
    ensures IsLowerLetter(c) ==> IsUpperLetter(ToUpper(c)) && ToLower(ToUpper(c)) == c
  {
  }

  /** `toLowerCase` on a string. */
  function LowerAll(w: string): (r: string)
    ensures |r| == |w|
  {
    seq(|w|, i requires 0 <= i < |w| => ToLower(w[i]))
  }

  /** Length of the maximal run of `\s` characters at the start of `t`. */
  function SpaceRun(t: string): (n: nat)
    ensures n <= |t|
    ensures forall i | 0 <= i < n :: IsSpace(t[i])
    ensures n < |t| ==> !IsSpace(t[n])
  {
    if t != [] && IsSpace(t[0]) then 1 + SpaceRun(t[1..]) else 0
  }

  /** The two separators the page splits on. */
  datatype Pattern =
    | Whitespace          // /\s+/                        (app.js:115)
    | StrategySeparator   // /,\s*|\s*;\s*|\s+and\s+/      (app.js:151, 227, 367)

  /**
   * Length of the match of `pat` anchored at the start of `t`, or 0 when the
   * pattern does not match there. Neither pattern matches the empty string.
   * Greedy `\s*`/`\s+` followed by a non-space literal never profits from
   * backtracking, so each alternative is decided by the maximal space run.
   */
  function MatchLen(pat: Pattern, t: string): (n: nat)
    ensures n <= |t|
  {
    match pat
    case Whitespace => SpaceRun(t)
    case StrategySeparator =>
      if t != [] && t[0] == ',' then 1 + SpaceRun(t[1..])
      else
        var k := SpaceRun(t);
        if k < |t| && t[k] == ';' then k + 1 + SpaceRun(t[k + 1..])
        else if 0 < k && k + 3 < |t| && t[k..k + 3] == "and" && IsSpace(t[k + 3]) then
          k + 3 + SpaceRun(t[k + 3..])
        else 0
  }

  /**
   * `String.prototype.split` with a regular expression that never matches the
   * empty string: scan from position `q` for the leftmost match, cut the piece
   * before it and continue after it; the rest is the last piece.
   */
  function SplitScan(s: string, q: nat, pat: Pattern): (r: seq<string>)
    requires q <= |s|
    ensures |r| >= 1
    decreases |s|, |s| - q
  {
    if q == |s| then [s]
    else if MatchLen(pat, s[q..]) > 0 then
      [s[..q]] + SplitScan(s[q + MatchLen(pat, s[q..])..], 0, pat)
    else SplitScan(s, q + 1, pat)
  }

  function Split(s: string, pat: Pattern): (r: seq<string>)
    ensures |r| >= 1
  {
    SplitScan(s, 0, pat)
  }

  /** `trimStart`: drop the leading `\s` characters. */
  function TrimStart(s: string): (r: string)
    ensures |r| <= |s| && r == s[|s| - |r|..]
    ensures forall i | 0 <= i < |s| - |r| :: IsSpace(s[i])
    ensures r == [] || !IsSpace(r[0])
  {
    if s != [] && IsSpace(s[0]) then TrimStart(s[1..]) else s
  }

  /** `trimEnd`: drop the trailing `\s` characters. */
  function TrimEnd(s: string): (r: string)
    ensures |r| <= |s| && r == s[..|r|]
    ensures forall i | |r| <= i < |s| :: IsSpace(s[i])
    ensures r == [] || !IsSpace(r[|r| - 1])
  {
    if s != [] && IsSpace(s[|s| - 1]) then TrimEnd(s[..|s| - 1]) else s
  }

  /** `trim`: the longest infix of `s` that neither starts nor ends with `\s`. */
  function Trim(s: string): (r: string)
    ensures r == [] || (!IsSpace(r[0]) && !IsSpace(r[|r| - 1]))
    ensures (s == [] || (!IsSpace(s[0]) && !IsSpace(s[|s| - 1]))) ==> r == s
  {
    TrimEnd(TrimStart(s))
  }

  /** `trim` removes white space at the two ends of `s` and nothing else. */
  lemma TrimRemovesOnlyEnds(s: string)
    ensures var r := Trim(s);
      exists i | 0 <= i <= |s| - |r| ::
        && r == s[i..][..|r|]
        && (forall k | 0 <= k < i :: IsSpace(s[k]))
        && (forall k | i + |r| <= k < |s| :: IsSpace(s[k]))
  {
    var t := TrimStart(s);
    var i := |s| - |t|;
    var r := TrimEnd(t);
    assert forall k | i + |r| <= k < |s| :: s[k] == t[k - i];
    assert r == s[i..][..|r|];
  }

  /** A word whose first character is no lower-case letter and whose others are no upper-case letter. */
  predicate IsCapitalized(w: string) {
    && (w == [] || !IsLowerLetter(w[0]))
    && forall i | 0 < i < |w| :: !IsUpperLetter(w[i])
  }

  /** `word.charAt(0).toUpperCase() + word.slice(1).toLowerCase()` */
  function Capitalize(w: string): (r: string)
    ensures |r| == |w|
    ensures IsCapitalized(r)
    ensures forall i | 0 <= i < |w| :: IsSpace(r[i]) == IsSpace(w[i])
    ensures IsCapitalized(w) <==> r == w
    ensures forall i | 0 <= i < |w| :: ToLower(r[i]) == ToLower(w[i])
  {
    if w == [] then [] else [ToUpper(w[0])] + LowerAll(w[1..])
  }

  function CapitalizeAll(words: seq<string>): (r: seq<string>)
    ensures |r| == |words|
  {
    seq(|words|, i requires 0 <= i < |words| => Capitalize(words[i]))
  }

  /** `Array.prototype.join(' ')` */
  function Join(words: seq<string>): string
  {
    if words == [] then []
    else if |words| == 1 then words[0]
    else words[0] + " " + Join(words[1..])
  }

  /** `capitalizeStrategy` (app.js:114-118). */
  function Normalize(s: string): string
  {
    Join(CapitalizeAll(Split(s, Whitespace)))
  }

  // ---------------------------------------------------------------------------
  // What `split` returns
  // ---------------------------------------------------------------------------

  /** No match of `pat` starts at position `k` of `s`. */
  predicate NoMatchAt(pat: Pattern, s: string, k: int) {
    0 <= k <= |s| && MatchLen(pat, s[k..]) == 0
  }

  /** No position of `w` starts a match of `pat`. */
  predicate SeparatorFree(pat: Pattern, w: string) {
    forall i | 0 <= i < |w| :: NoMatchAt(pat, w, i)
  }

  /** No position before `q` starts a match: where the scan of `split` has already looked. */
  predicate NoMatchBefore(pat: Pattern, s: string, q: nat)
    requires q <= |s|
  {
    forall k | 0 <= k < q :: NoMatchAt(pat, s, k)
  }

  /** Every piece is separator-free. */
  predicate PiecesSeparatorFree(pat: Pattern, pieces: seq<string>) {
    forall j | 0 <= j < |pieces| :: SeparatorFree(pat, pieces[j])
  }

  lemma {:induction false} SpaceRunExtends(t: string, u: string)
    requires SpaceRun(t) < |t|
    ensures SpaceRun(t + u) == SpaceRun(t)
  {
    if IsSpace(t[0]) {
      assert (t + u)[1..] == t[1..] + u;
      SpaceRunExtends(t[1..], u);
    }
  }

  /** A match at the start of `t` is still a match when more text follows (no lookahead past a match). */
  lemma MatchExtends(pat: Pattern, t: string, u: string)
    ensures MatchLen(pat, t) > 0 ==> MatchLen(pat, t + u) > 0
  {
    if MatchLen(pat, t) > 0 {
      match pat
      case Whitespace =>
        assert (t + u)[0] == t[0];
      case StrategySeparator =>
        if t[0] == ',' {
          assert (t + u)[0] == ',';
        } else {
          SpaceRunExtends(t, u);
          var k := SpaceRun(t);
          assert (t + u)[k] == t[k];
          if k + 3 < |t| {
            assert (t + u)[k..k + 3] == t[k..k + 3];
            assert (t + u)[k + 3] == t[k + 3];
          }
        }
    }
  }

  /** Positions without a match are passed over. */
  lemma {:induction false} ScanSkip(s: string, q: nat, r: nat, pat: Pattern)
    requires q <= r <= |s|
    requires forall k | q <= k < r :: NoMatchAt(pat, s, k)
    ensures SplitScan(s, q, pat) == SplitScan(s, r, pat)
    decreases r - q
  {
    if q < r {
      assert NoMatchAt(pat, s, q);
      assert SplitScan(s, q, pat) == SplitScan(s, q + 1, pat);
      ScanSkip(s, q + 1, r, pat);
    }
  }

  /** The text before the first match is separator-free. */
  lemma PrefixSeparatorFree(s: string, q: nat, pat: Pattern)
    requires q <= |s| && NoMatchBefore(pat, s, q)
    ensures SeparatorFree(pat, s[..q])
  {
    forall i | 0 <= i < q
      ensures NoMatchAt(pat, s[..q], i)
    {
      assert s[..q][i..] + s[q..] == s[i..];
      assert NoMatchAt(pat, s, i);
      MatchExtends(pat, s[..q][i..], s[q..]);
    }
  }

  /** One step of the scan where a match is found at `q`. */
  lemma ScanCutsAt(s: string, q: nat, pat: Pattern)
    requires q < |s| && MatchLen(pat, s[q..]) > 0
    ensures SplitScan(s, q, pat) == [s[..q]] + SplitScan(s[q + MatchLen(pat, s[q..])..], 0, pat)
  {
  }

  /** One step of the scan where nothing matches at `q`. */
  lemma ScanPassesAt(s: string, q: nat, pat: Pattern)
    requires q < |s| && MatchLen(pat, s[q..]) == 0
    ensures SplitScan(s, q, pat) == SplitScan(s, q + 1, pat)
  {
  }

  lemma PiecesSeparatorFreeCons(pat: Pattern, w: string, rest: seq<string>)
    requires SeparatorFree(pat, w) && PiecesSeparatorFree(pat, rest)
    ensures PiecesSeparatorFree(pat, [w] + rest)
  {
    forall j | 0 <= j < |rest| + 1
      ensures SeparatorFree(pat, ([w] + rest)[j])
    {
      if j > 0 {
        assert ([w] + rest)[j] == rest[j - 1];
      }
    }
  }

  /** The last piece of a scan that found no match is separator-free. */
  lemma ScanEndFree(s: string, pat: Pattern)
    requires NoMatchBefore(pat, s, |s|)
    ensures PiecesSeparatorFree(pat, SplitScan(s, |s|, pat))
  {
    PrefixSeparatorFree(s, |s|, pat);
    assert s[..|s|] == s;
    assert SplitScan(s, |s|, pat) == [s];
  }

  /** Cutting before the first match keeps every piece separator-free. */
  lemma ScanCutFree(s: string, q: nat, pat: Pattern)
    requires q < |s| && MatchLen(pat, s[q..]) > 0 && NoMatchBefore(pat, s, q)
    requires PiecesSeparatorFree(pat, SplitScan(s[q + MatchLen(pat, s[q..])..], 0, pat))
    ensures PiecesSeparatorFree(pat, SplitScan(s, q, pat))
  {
    ScanCutsAt(s, q, pat);
    PrefixSeparatorFree(s, q, pat);
    PiecesSeparatorFreeCons(pat, s[..q], SplitScan(s[q + MatchLen(pat, s[q..])..], 0, pat));
  }

  lemma {:induction false} ScanSeparatorFree(s: string, q: nat, pat: Pattern)
    requires q <= |s| && NoMatchBefore(pat, s, q)
    ensures PiecesSeparatorFree(pat, SplitScan(s, q, pat))
    decreases |s|, |s| - q
  {
    if q == |s| {
      ScanEndFree(s, pat);
    } else if MatchLen(pat, s[q..]) > 0 {
      ScanSeparatorFree(s[q + MatchLen(pat, s[q..])..], 0, pat);
      ScanCutFree(s, q, pat);
    } else {
      ScanPassesAt(s, q, pat);
      assert NoMatchBefore(pat, s, q + 1);
      ScanSeparatorFree(s, q + 1, pat);
    }
  }

  /** No piece of a split contains a separator. */
  lemma SplitSeparatorFree(s: string, pat: Pattern)
    ensures PiecesSeparatorFree(pat, Split(s, pat))
  {
    assert Split(s, pat) == SplitScan(s, 0, pat);
    ScanSeparatorFree(s, 0, pat);
  }

  /** A string without a separator is its own single piece. */
  lemma SplitWithoutSeparator(s: string, pat: Pattern)
    requires SeparatorFree(pat, s)
    ensures Split(s, pat) == [s]
  {
    ScanSkip(s, 0, |s|, pat);
  }

  /** The leftmost separator `d` cuts off the first piece `a`; splitting continues after it. */
  lemma SplitAtFirstSeparator(a: string, d: string, b: string, pat: Pattern)
    requires d != [] && MatchLen(pat, d + b) == |d|
    requires NoMatchBefore(pat, a + d + b, |a|)
    ensures Split(a + d + b, pat) == [a] + Split(b, pat)
  {
    var s := a + d + b;
    calc {
      Split(s, pat);
      SplitScan(s, 0, pat);
      { ScanSkip(s, 0, |a|, pat); }
      SplitScan(s, |a|, pat);
      { assert s[|a|..] == d + b;
        ScanCutsAt(s, |a|, pat); }
      [s[..|a|]] + SplitScan(s[|a| + |d|..], 0, pat);
      { assert s[..|a|] == a;
        assert s[|a| + |d|..] == b; }
      [a] + Split(b, pat);
    }
  }

  // ---------------------------------------------------------------------------
  // Words: `split(/\s+/)` and `join(' ')`
  // ---------------------------------------------------------------------------

  /** The lists `split(/\s+/)` returns: no piece holds a space; only the first and last may be empty. */
  predicate IsWordList(words: seq<string>) {
    && |words| >= 1
    && (forall k, i | 0 <= k < |words| && 0 <= i < |words[k]| :: !IsSpace(words[k][i]))
    && (forall k | 0 < k < |words| - 1 :: words[k] != [])
  }

  /** Only the first and the last piece may be empty. */
  predicate InnerPiecesNonEmpty(r: seq<string>) {
    forall k | 0 < k < |r| - 1 :: r[k] != []
  }

  lemma {:induction false} ScanFirstPiece(s: string, q: nat)
    requires q <= |s|
    ensures SplitScan(s, q, Whitespace)[0] == [] ==> s == [] || IsSpace(s[0])
    decreases |s| - q
  {
    if q < |s| {
      if MatchLen(Whitespace, s[q..]) > 0 {
        ScanCutsAt(s, q, Whitespace);
        assert q == 0 ==> IsSpace(s[q..][0]);
      } else {
        ScanPassesAt(s, q, Whitespace);
        ScanFirstPiece(s, q + 1);
      }
    }
  }

  lemma {:induction false} ScanLastPiece(s: string, q: nat)
    requires q <= |s|
    ensures var r := SplitScan(s, q, Whitespace); r[|r| - 1] == [] ==> s == [] || IsSpace(s[|s| - 1])
    decreases |s|, |s| - q
  {
    if q < |s| {
      var n := MatchLen(Whitespace, s[q..]);
      if n > 0 {
        var rest := s[q + n..];
        var r' := SplitScan(rest, 0, Whitespace);
        assert SplitScan(s, q, Whitespace) == [s[..q]] + r' by {
          ScanCutsAt(s, q, Whitespace);
        }
        assert ([s[..q]] + r')[|r'|] == r'[|r'| - 1];
        ScanLastPiece(rest, 0);
        if r'[|r'| - 1] == [] {
          if rest == [] {
            assert IsSpace(s[q..][n - 1]);
          } else {
            assert rest[|rest| - 1] == s[|s| - 1];
          }
        }
      } else {
        ScanPassesAt(s, q, Whitespace);
        ScanLastPiece(s, q + 1);
      }
    }
  }

  lemma {:induction false} ScanInnerPieces(s: string, q: nat)
    requires q <= |s|
    ensures InnerPiecesNonEmpty(SplitScan(s, q, Whitespace))
    decreases |s|, |s| - q
  {
    if q < |s| {
      var n := MatchLen(Whitespace, s[q..]);
      if n > 0 {
        var rest := s[q + n..];
        var r' := SplitScan(rest, 0, Whitespace);
        var r := [s[..q]] + r';
        assert SplitScan(s, q, Whitespace) == r by {
          ScanCutsAt(s, q, Whitespace);
        }
        ScanInnerPieces(rest, 0);
        assert |r'| > 1 ==> r'[0] != [] by {
          ScanFirstPiece(rest, 0);
          assert rest != [] ==> rest[0] == s[q..][n];
          if rest == [] {
            assert SplitScan(rest, 0, Whitespace) == [rest];
          }
        }
        forall k | 0 < k < |r| - 1
          ensures r[k] != []
        {
          assert r[k] == r'[k - 1];
        }
      } else {
        ScanPassesAt(s, q, Whitespace);
        ScanInnerPieces(s, q + 1);
      }
    }
  }

  /** `split(/\s+/)` yields a word list, with an empty first (last) word only after a leading (trailing) space. */
  lemma SplitWordsShape(s: string)
    ensures IsWordList(Split(s, Whitespace))
    ensures Split(s, Whitespace)[0] == [] ==> s == [] || IsSpace(s[0])
    ensures var r := Split(s, Whitespace); r[|r| - 1] == [] ==> s == [] || IsSpace(s[|s| - 1])
  {
    var r := Split(s, Whitespace);
    ScanFirstPiece(s, 0);
    ScanLastPiece(s, 0);
    ScanInnerPieces(s, 0);
    SplitSeparatorFree(s, Whitespace);
    forall k, i | 0 <= k < |r| && 0 <= i < |r[k]|
      ensures !IsSpace(r[k][i])
    {
      assert SeparatorFree(Whitespace, r[k]);
      assert NoMatchAt(Whitespace, r[k], i);
      assert SpaceRun(r[k][i..]) == 0;
    }
  }

  /** Splitting a joined word list on spaces gives the words back. */
  lemma {:induction false} SplitJoin(words: seq<string>)
    requires IsWordList(words)
    ensures Split(Join(words), Whitespace) == words
    decreases |words|
  {
    var a := words[0];
    if |words| == 1 {
      forall i | 0 <= i < |a|
        ensures NoMatchAt(Whitespace, a, i)
      {
        assert a[i..][0] == a[i];
      }
      SplitWithoutSeparator(a, Whitespace);
    } else {
      var rest := words[1..];
      assert IsWordList(rest) by {
        assert forall k | 0 <= k < |rest| :: rest[k] == words[k + 1];
      }
      SplitJoin(rest);
      var b := Join(rest);
      assert b == [] || !IsSpace(b[0]) by {
        if |rest| >= 2 {
          assert rest[0] == words[1] != [];
          assert b == rest[0] + " " + Join(rest[1..]);
          assert b[0] == words[1][0];
        }
      }
      assert SpaceRun(" " + b) == 1 by {
        assert (" " + b)[1..] == b;
      }
      forall i | 0 <= i < |a|
        ensures NoMatchAt(Whitespace, a + " " + b, i)
      {
        assert (a + " " + b)[i..][0] == a[i];
      }
      SplitAtFirstSeparator(a, " ", b, Whitespace);
    }
  }

  /** Capitalising keeps a word list a word list. */
  lemma CapitalizedWordList(words: seq<string>)
    requires IsWordList(words)
    ensures IsWordList(CapitalizeAll(words))
  {
    var caps := CapitalizeAll(words);
    forall k, i | 0 <= k < |caps| && 0 <= i < |caps[k]|
      ensures !IsSpace(caps[k][i])
    {
      assert caps[k] == Capitalize(words[k]);
    }
    forall k | 0 < k < |caps| - 1
      ensures caps[k] != []
    {
      assert |caps[k]| == |words[k]|;
    }
  }

  /** The words of a normalised label are the capitalised words of the input. */
  lemma NormalizeWords(s: string)
    ensures Split(Normalize(s), Whitespace) == CapitalizeAll(Split(s, Whitespace))
  {
    var words := Split(s, Whitespace);
    SplitWordsShape(s);
    CapitalizedWordList(words);
    SplitJoin(CapitalizeAll(words));
  }

  /** `capitalizeStrategy` is idempotent. */
  lemma NormalizeIdempotent(s: string)
    ensures Normalize(Normalize(s)) == Normalize(s)
  {
    NormalizeWords(s);
    var caps := CapitalizeAll(Split(s, Whitespace));
    assert CapitalizeAll(caps) == caps by {
      forall k | 0 <= k < |caps|
        ensures CapitalizeAll(caps)[k] == caps[k]
      {
        assert IsCapitalized(caps[k]);
      }
    }
  }

  lemma {:induction false} JoinEnds(words: seq<string>)
    requires |words| >= 1
    requires forall k | 0 <= k < |words| :: words[k] != [] && !IsSpace(words[k][0]) && !IsSpace(words[k][|words[k]| - 1])
    ensures var j := Join(words); j != [] && !IsSpace(j[0]) && !IsSpace(j[|j| - 1])
    decreases |words|
  {
    if |words| > 1 {
      JoinEnds(words[1..]);
      var tail := Join(words[1..]);
      assert Join(words) == words[0] + " " + tail;
      assert Join(words)[|Join(words)| - 1] == tail[|tail| - 1];
    }
  }

  /** Normalising a trimmed, non-empty string gives a trimmed, non-empty string. */
  lemma NormalizeTrimmed(s: string)
    requires s != [] && !IsSpace(s[0]) && !IsSpace(s[|s| - 1])
    ensures var n := Normalize(s); n != [] && !IsSpace(n[0]) && !IsSpace(n[|n| - 1])
  {
    var words := Split(s, Whitespace);
    SplitWordsShape(s);
    var caps := CapitalizeAll(words);
    forall k | 0 <= k < |caps|
      ensures caps[k] != [] && !IsSpace(caps[k][0]) && !IsSpace(caps[k][|caps[k]| - 1])
    {
      assert caps[k] == Capitalize(words[k]);
      assert words[k] != [];
    }
    JoinEnds(caps);
  }
}
