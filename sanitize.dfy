/** The history sanitiser: three regular-expression substitutions that replace the bare
    JavaScript literals NaN, Infinity and -Infinity in a JSON text by null, but only where
    they stand between JSON delimiters. */
module Sanitize {

  /** Python's `\s` in a str pattern: exactly the characters for which str.isspace() holds. */
  predicate IsSpace(c: char) {
    var n := c as int;
    (0x09 <= n <= 0x0d) || (0x1c <= n <= 0x20) || n == 0x85 || n == 0xa0 || n == 0x1680
    || (0x2000 <= n <= 0x200a) || n == 0x2028 || n == 0x2029 || n == 0x202f || n == 0x205f
    || n == 0x3000
  }

  /** The lookbehind class `[:\s,\[\{]`. */
  predicate LeftDelimiter(c: char) {
    c == ':' || IsSpace(c) || c == ',' || c == '[' || c == '{'
  }

  /** The lookahead class `[\s,\]\}]`. */
  predicate RightDelimiter(c: char) {
    IsSpace(c) || c == ',' || c == ']' || c == '}'
  }

  const Replacement: string := "null"

  /** The pattern `(?<=L)token(?=R)` matches the text s at position i. Both lookarounds are
      zero-width and need a character to look at, so a token at either end of s never matches. */
  predicate MatchAt(s: string, token: string, i: int) {
    0 < i && i + |token| < |s| && s[i..i + |token|] == token
    && LeftDelimiter(s[i - 1]) && RightDelimiter(s[i + |token|])
  }

  /** `re.sub` from position i: the pattern is tried against the ORIGINAL text s at each
      position; a match emits the replacement and the scan resumes after the token. */
  function SubFrom(s: string, token: string, i: nat): (r: string)
    requires i <= |s| && token != []
    decreases |s| - i
  {
    if i == |s| then []
    else if MatchAt(s, token, i) then Replacement + SubFrom(s, token, i + |token|)
    else [s[i]] + SubFrom(s, token, i + 1)
  }

  /** One substitution pass over the whole text. */
  function Sub(s: string, token: string): (r: string)
    requires token != []
  {
    SubFrom(s, token, 0)
  }

  /** The three passes, in their fixed order. */
  function Sanitize(raw: string): (clean: string) {
    Sub(Sub(Sub(raw, "NaN"), "Infinity"), "-Infinity")
  }

  // ---------------------------------------------------------------------------------------
  // A position-by-position description of one pass, independent of the scan order

  /** Where the pattern matches the original text, position by position. */
  function Matches(s: string, token: string): (bits: seq<bool>)
    ensures |bits| == |s|
    ensures forall j :: 0 <= j < |s| ==> bits[j] == MatchAt(s, token, j)
  {
    seq(|s|, j requires 0 <= j < |s| => MatchAt(s, token, j))
  }

  /** No character of the token can serve as a left delimiter (true of all three tokens). */
  predicate Plain(token: string) {
    token != [] && forall k :: 0 <= k < |token| ==> !LeftDelimiter(token[k])
  }

  /** A match of width w at j leaves room for its token. */
  predicate Fits(bits: seq<bool>, w: nat) {
    forall j :: 0 <= j < |bits| && bits[j] ==> j + w <= |bits|
  }

  /** Matches fit, and no match starts inside another. */
  predicate Separated(bits: seq<bool>, w: nat) {
    Fits(bits, w) && forall j, k :: 0 <= j < k < |bits| && k < j + w && bits[j] ==> !bits[k]
  }

  /** Position i lies strictly inside a match starting further to the left. */
  ghost predicate Covered(bits: seq<bool>, w: nat, i: int) {
    exists j :: 0 <= j < |bits| && i - w < j < i && bits[j]
  }

  /** What position i of the input contributes to the output: the replacement where a match
      starts, nothing inside a matched token, the character itself everywhere else. */
  ghost function Piece(s: string, bits: seq<bool>, w: nat, i: nat): (piece: string)
    requires i < |s| == |bits|
  {
    if bits[i] then Replacement
    else if Covered(bits, w, i) then []
    else [s[i]]
  }

  /** The contributions of positions i, i+1, ..., |s|-1, in order. */
  ghost function Pieces(s: string, bits: seq<bool>, w: nat, i: nat): (r: string)
    requires i <= |s| == |bits|
    decreases |s| - i
  {
    if i == |s| then [] else Piece(s, bits, w, i) + Pieces(s, bits, w, i + 1)
  }

  /** The scan of SubFrom, reading the matches from bits. */
  function Scan(s: string, bits: seq<bool>, w: nat, i: nat): (r: string)
    requires i <= |s| == |bits| && w > 0 && Fits(bits, w)
    decreases |s| - i
  {
    if i == |s| then []
    else if bits[i] then Replacement + Scan(s, bits, w, i + w)
    else [s[i]] + Scan(s, bits, w, i + 1)
  }

  lemma InsideMatchNoMatch(s: string, token: string, i: int, j: int)
    requires Plain(token) && MatchAt(s, token, i) && i < j < i + |token|
    ensures !MatchAt(s, token, j)
  {
    assert s[j - 1] == s[i..i + |token|][j - 1 - i];
  }

  /** The matches of a plain token are separated. */
  lemma MatchesSeparated(s: string, token: string)
    requires Plain(token)
    ensures Separated(Matches(s, token), |token|)
  {
    var bits := Matches(s, token);
    forall j, k | 0 <= j < k < |bits| && k < j + |token| && bits[j]
      ensures !bits[k]
    {
      InsideMatchNoMatch(s, token, j, k);
    }
  }

  lemma MatchesFit(s: string, token: string)
    ensures Fits(Matches(s, token), |token|)
  {
  }

  /** re.sub's scan is the scan over the precomputed matches. */
  lemma {:induction false} SubFromIsScan(s: string, token: string, i: nat)
    requires token != [] && i <= |s| && Fits(Matches(s, token), |token|)
    ensures SubFrom(s, token, i) == Scan(s, Matches(s, token), |token|, i)
    decreases |s| - i
  {
    if i < |s| {
      if MatchAt(s, token, i) {
        SubFromIsScan(s, token, i + |token|);
      } else {
        SubFromIsScan(s, token, i + 1);
      }
    }
  }

  /** A position strictly inside a match contributes nothing. */
  lemma InsideMatchSilent(s: string, bits: seq<bool>, w: nat, j: nat, k: nat)
    requires |s| == |bits| && Separated(bits, w) && j < k < j + w && k < |s| && bits[j]
    ensures Piece(s, bits, w, k) == []
  {
    assert Covered(bits, w, k);
  }

  lemma {:induction false} SkipMatched(s: string, bits: seq<bool>, w: nat, j: nat, k: nat)
    requires |s| == |bits| && Separated(bits, w) && j < k <= j + w && j < |s| && bits[j]
    ensures j + w <= |s|
    ensures Pieces(s, bits, w, k) == Pieces(s, bits, w, j + w)
    decreases j + w - k
  {
    if k < j + w {
      InsideMatchSilent(s, bits, w, j, k);
      SkipMatched(s, bits, w, j, k + 1);
    }
  }

  lemma NextUncovered(bits: seq<bool>, w: nat, i: nat)
    requires i < |bits| && !Covered(bits, w, i) && !bits[i]
    ensures !Covered(bits, w, i + 1)
  {
  }

  lemma AfterMatchUncovered(bits: seq<bool>, w: nat, j: nat)
    requires Separated(bits, w) && j < |bits| && bits[j]
    ensures !Covered(bits, w, j + w)
  {
  }

  /** At a match the output is the replacement followed by what comes after the token. */
  lemma MatchStep(s: string, bits: seq<bool>, w: nat, i: nat)
    requires i < |s| == |bits| && w > 0 && Separated(bits, w) && bits[i]
    ensures i + w <= |s|
    ensures Pieces(s, bits, w, i) == Replacement + Pieces(s, bits, w, i + w)
  {
    SkipMatched(s, bits, w, i, i + 1);
  }

  /** At an uncovered position without a match the character is kept. */
  lemma KeepStep(s: string, bits: seq<bool>, w: nat, i: nat)
    requires i < |s| == |bits| && !bits[i] && !Covered(bits, w, i)
    ensures Pieces(s, bits, w, i) == [s[i]] + Pieces(s, bits, w, i + 1)
  {
  }

  lemma {:induction false} ScanAgrees(s: string, bits: seq<bool>, w: nat, i: nat)
    requires i <= |s| == |bits| && w > 0 && Separated(bits, w) && !Covered(bits, w, i)
    ensures Scan(s, bits, w, i) == Pieces(s, bits, w, i)
    decreases |s| - i, 1
  {
    if i < |s| {
      if bits[i] {
        ScanMatch(s, bits, w, i);
      } else {
        ScanKeep(s, bits, w, i);
      }
    }
  }

  lemma {:induction false} ScanMatch(s: string, bits: seq<bool>, w: nat, i: nat)
    requires i < |s| == |bits| && w > 0 && Separated(bits, w) && bits[i]
    ensures Scan(s, bits, w, i) == Pieces(s, bits, w, i)
    decreases |s| - i, 0
  {
    MatchStep(s, bits, w, i);
    AfterMatchUncovered(bits, w, i);
    ScanAgrees(s, bits, w, i + w);
    assert Scan(s, bits, w, i) == Replacement + Scan(s, bits, w, i + w);
  }

  lemma {:induction false} ScanKeep(s: string, bits: seq<bool>, w: nat, i: nat)
    requires i < |s| == |bits| && w > 0 && Separated(bits, w) && !Covered(bits, w, i) && !bits[i]
    ensures Scan(s, bits, w, i) == Pieces(s, bits, w, i)
    decreases |s| - i, 0
  {
    KeepStep(s, bits, w, i);
    NextUncovered(bits, w, i);
    ScanAgrees(s, bits, w, i + 1);
    assert Scan(s, bits, w, i) == [s[i]] + Scan(s, bits, w, i + 1);
  }

  /** One pass replaces exactly the delimited occurrences of the original text, drops the
      characters of those occurrences, and keeps every other character, in order. */
  lemma SubIsPointwise(s: string, token: string)
    requires Plain(token)
    ensures Sub(s, token) == Pieces(s, Matches(s, token), |token|, 0)
  {
    MatchesSeparated(s, token);
    MatchesFit(s, token);
    SubFromIsScan(s, token, 0);
    ScanAgrees(s, Matches(s, token), |token|, 0);
  }

  /** A text in which the pattern matches nowhere passes through unchanged. */
  lemma {:induction false} NoMatchUnchanged(s: string, token: string, i: nat)
    requires token != [] && i <= |s|
    requires forall j :: i <= j < |s| ==> !MatchAt(s, token, j)
    ensures SubFrom(s, token, i) == s[i..]
    decreases |s| - i
  {
    if i < |s| {
      NoMatchUnchanged(s, token, i + 1);
      assert s[i..] == [s[i]] + s[i + 1..];
    }
  }

  /** A text without the token's first character passes through unchanged. */
  lemma Absent(s: string, token: string)
    requires token != [] && forall j :: 0 <= j < |s| ==> s[j] != token[0]
    ensures Sub(s, token) == s
  {
    NoMatchUnchanged(s, token, 0);
  }

  /** The three tokens are plain. */
  lemma TokensArePlain()
    ensures Plain("NaN") && Plain("Infinity") && Plain("-Infinity") && Plain(Replacement)
  {
  }

  /** A delimited -Infinity is not a match of the Infinity pass, because '-' is no left
      delimiter; it survives until the third pass. */
  lemma MinusInfinitySurvivesInfinityPass(s: string, i: int)
    requires MatchAt(s, "-Infinity", i)
    ensures !MatchAt(s, "Infinity", i + 1)
  {
    assert s[i] == s[i..i + 9][0] == '-';
  }

  // ---------------------------------------------------------------------------------------
  // What one pass does to a stretch of the text

  /** The contributions of positions i..j-1, in order. */
  ghost function PiecesBetween(s: string, bits: seq<bool>, w: nat, i: nat, j: nat): (r: string)
    requires i <= j <= |s| == |bits|
    decreases j - i
  {
    if i == j then [] else Piece(s, bits, w, i) + PiecesBetween(s, bits, w, i + 1, j)
  }

  lemma {:induction false} PiecesSplit(s: string, bits: seq<bool>, w: nat, i: nat, j: nat)
    requires i <= j <= |s| == |bits|
    ensures Pieces(s, bits, w, i) == PiecesBetween(s, bits, w, i, j) + Pieces(s, bits, w, j)
    decreases j - i
  {
    if i < j {
      PiecesSplit(s, bits, w, i + 1, j);
    }
  }

  /** Where no match starts at or covers a position of lo..hi-1, those characters are copied. */
  lemma {:induction false} QuietStretch(s: string, bits: seq<bool>, w: nat, lo: nat, hi: nat)
    requires lo <= hi <= |s| == |bits| && w > 0
    requires forall j :: 0 <= j < |bits| && lo - w < j < hi ==> !bits[j]
    ensures PiecesBetween(s, bits, w, lo, hi) == s[lo..hi]
    decreases hi - lo
  {
    if lo < hi {
      assert !bits[lo] && !Covered(bits, w, lo);
      QuietStretch(s, bits, w, lo + 1, hi);
      assert s[lo..hi] == [s[lo]] + s[lo + 1..hi];
    }
  }

  /** A stretch that opens with a left delimiter and in which the token's first character
      never follows a left delimiter: no match of the token can touch it. */
  predicate Guarded(w: string, first: char) {
    |w| > 0 && LeftDelimiter(w[0])
    && forall q :: 0 < q < |w| ==> w[q] != first || !LeftDelimiter(w[q - 1])
  }

  /** A delimiter, a text without delimiters that does not start with `first`, and any
      closing character make a guarded stretch. */
  lemma FramedGuarded(left: char, body: string, right: char, first: char)
    requires LeftDelimiter(left) && Plain(body) && body[0] != first
    ensures Guarded([left] + body + [right], first)
  {
    var w := [left] + body + [right];
    forall q | 0 < q < |w|
      ensures w[q] != first || !LeftDelimiter(w[q - 1])
    {
      if q > 1 {
        assert w[q - 1] == body[q - 2];
      }
    }
  }

  lemma GuardedNoMatch(s: string, token: string, lo: nat, hi: nat, j: int)
    requires Plain(token) && lo < hi <= |s| && Guarded(s[lo..hi], token[0])
    requires lo - |token| < j < hi
    ensures !MatchAt(s, token, j)
  {
    var w := s[lo..hi];
    if 0 <= j && j + |token| <= |s| {
      if j <= lo {
        assert s[j..j + |token|][lo - j] == s[lo] == w[0];
      } else {
        assert s[j..j + |token|][0] == s[j] == w[j - lo];
        assert s[j - 1] == w[j - lo - 1];
      }
    }
  }

  /** `part` occurs in `text` from position m on. */
  predicate OccursAt(text: string, part: string, m: int) {
    0 <= m && m + |part| <= |text| && text[m..m + |part|] == part
  }

  lemma OccursInMiddle(a: string, b: string, c: string)
    ensures OccursAt(a + b + c, b, |a|)
  {
  }

  /** Where the output of one pass has got to when the scan reaches input position j: the
      length of what positions 0..j-1 contribute. */
  ghost function OutPos(s: string, token: string, j: nat): (m: nat)
    requires Plain(token) && j <= |s|
    ensures m <= |Sub(s, token)|
  {
    SubIsPointwise(s, token);
    PiecesSplit(s, Matches(s, token), |token|, 0, j);
    |PiecesBetween(s, Matches(s, token), |token|, 0, j)|
  }

  /** Where input position j of the raw text has got to after the NaN and Infinity passes. */
  ghost function TwoPassPos(raw: string, j: nat): (m: nat)
    requires j <= |raw|
    ensures m <= |Sub(Sub(raw, "NaN"), "Infinity")|
  {
    TokensArePlain();
    OutPos(Sub(raw, "NaN"), "Infinity", OutPos(raw, "NaN", j))
  }

  /** Where input position j of the raw text has got to after all three passes. */
  ghost function SanitizedPos(raw: string, j: nat): (m: nat)
    requires j <= |raw|
    ensures m <= |Sanitize(raw)|
  {
    TokensArePlain();
    OutPos(Sub(Sub(raw, "NaN"), "Infinity"), "-Infinity", TwoPassPos(raw, j))
  }

  /** A guarded stretch comes through a pass unchanged, as one piece of the output. */
  lemma GuardedKept(s: string, token: string, lo: nat, hi: nat) returns (k: nat)
    requires Plain(token) && lo < hi <= |s| && Guarded(s[lo..hi], token[0])
    ensures k == OutPos(s, token, lo)
    ensures OccursAt(Sub(s, token), s[lo..hi], k)
  {
    var bits, w := Matches(s, token), |token|;
    forall j | 0 <= j < |bits| && lo - w < j < hi
      ensures !bits[j]
    {
      GuardedNoMatch(s, token, lo, hi, j);
    }
    SubIsPointwise(s, token);
    k := QuietPieces(s, bits, w, lo, hi);
  }

  lemma QuietPieces(s: string, bits: seq<bool>, w: nat, lo: nat, hi: nat) returns (k: nat)
    requires lo <= hi <= |s| == |bits| && w > 0
    requires forall j :: 0 <= j < |bits| && lo - w < j < hi ==> !bits[j]
    ensures k == |PiecesBetween(s, bits, w, 0, lo)|
    ensures OccursAt(Pieces(s, bits, w, 0), s[lo..hi], k)
  {
    QuietStretch(s, bits, w, lo, hi);
    PiecesSplit(s, bits, w, 0, lo);
    PiecesSplit(s, bits, w, lo, hi);
    var before := PiecesBetween(s, bits, w, 0, lo);
    k := |before|;
    OccursInMiddle(before, s[lo..hi], Pieces(s, bits, w, hi));
  }

  /** The delimiter before a match is kept: no match starts at it or covers it. */
  lemma BeforeMatchKept(s: string, token: string, i: int)
    requires Plain(token) && MatchAt(s, token, i)
    ensures Piece(s, Matches(s, token), |token|, i - 1) == [s[i - 1]]
  {
    var bits, w := Matches(s, token), |token|;
    forall j | 0 <= j < |bits| && i - 1 - w < j <= i - 1
      ensures !bits[j]
    {
      if j + w <= |s| {
        assert s[j..j + w][i - 1 - j] == s[i - 1];
      }
    }
    assert !Covered(bits, w, i - 1);
  }

  /** The delimiter after a match is kept: the last token character is no left delimiter. */
  lemma AfterMatchKept(s: string, token: string, i: int)
    requires Plain(token) && MatchAt(s, token, i)
    ensures i + |token| < |s|
    ensures Piece(s, Matches(s, token), |token|, i + |token|) == [s[i + |token|]]
  {
    var bits, w := Matches(s, token), |token|;
    MatchesSeparated(s, token);
    assert s[i + w - 1] == s[i..i + w][w - 1];
    assert !bits[i + w];
    AfterMatchUncovered(bits, w, i);
  }

  /** Around a match whose two neighbours are kept, the output reads: the neighbour before,
      the replacement, the neighbour after. */
  lemma PiecesAroundMatch(s: string, bits: seq<bool>, w: nat, i: nat)
    requires 0 < i && i + w < |s| == |bits| && w > 0 && Separated(bits, w) && bits[i]
    requires Piece(s, bits, w, i - 1) == [s[i - 1]] && Piece(s, bits, w, i + w) == [s[i + w]]
    ensures Pieces(s, bits, w, 0) == PiecesBetween(s, bits, w, 0, i - 1)
      + ([s[i - 1]] + Replacement + [s[i + w]]) + Pieces(s, bits, w, i + w + 1)
  {
    MatchStep(s, bits, w, i);
    PiecesSplit(s, bits, w, 0, i - 1);
  }

  /** A delimited token comes out of its pass as null between the same two characters. */
  lemma MatchReplaced(s: string, token: string, i: int) returns (k: nat)
    requires Plain(token) && MatchAt(s, token, i)
    ensures k == OutPos(s, token, i - 1)
    ensures OccursAt(Sub(s, token), [s[i - 1]] + Replacement + [s[i + |token|]], k)
  {
    MatchesSeparated(s, token);
    BeforeMatchKept(s, token, i);
    AfterMatchKept(s, token, i);
    SubIsPointwise(s, token);
    k := ReplacedPieces(s, Matches(s, token), |token|, i);
  }

  lemma ReplacedPieces(s: string, bits: seq<bool>, w: nat, i: nat) returns (k: nat)
    requires 0 < i && i + w < |s| == |bits| && w > 0 && Separated(bits, w) && bits[i]
    requires Piece(s, bits, w, i - 1) == [s[i - 1]] && Piece(s, bits, w, i + w) == [s[i + w]]
    ensures k == |PiecesBetween(s, bits, w, 0, i - 1)|
    ensures OccursAt(Pieces(s, bits, w, 0), [s[i - 1]] + Replacement + [s[i + w]], k)
  {
    PiecesAroundMatch(s, bits, w, i);
    k := |PiecesBetween(s, bits, w, 0, i - 1)|;
    OccursInMiddle(PiecesBetween(s, bits, w, 0, i - 1), [s[i - 1]] + Replacement + [s[i + w]],
      Pieces(s, bits, w, i + w + 1));
  }

  /** The six characters from m on are the left delimiter, "null" and the right one. */
  lemma NullAt(t: string, left: char, right: char, m: int)
    requires OccursAt(t, [left] + Replacement + [right], m)
    ensures t[m] == left && t[m + 1..m + 5] == Replacement && t[m + 5] == right
  {
    var framed := [left] + Replacement + [right];
    assert t[m..m + 6] == framed;
    assert t[m + 1..m + 5] == framed[1..5];
  }

  /** The ten characters from m on are a delimiter, Infinity and a closing character. */
  lemma InfinityAt(t: string, left: char, right: char, m: int)
    requires OccursAt(t, [left] + "Infinity" + [right], m)
    ensures t[m] == left && t[m + 1..m + 9] == "Infinity" && t[m + 9] == right
  {
    var framed := [left] + "Infinity" + [right];
    assert t[m..m + 10] == framed;
    assert t[m + 1..m + 9] == framed[1..9];
  }

  /** The eleven characters from m on are a delimiter, -Infinity and a closing character. */
  lemma MinusInfinityAt(t: string, left: char, right: char, m: int)
    requires OccursAt(t, [left] + "-Infinity" + [right], m)
    ensures t[m] == left && t[m + 1..m + 10] == "-Infinity" && t[m + 10] == right
  {
    var framed := [left] + "-Infinity" + [right];
    assert t[m..m + 11] == framed;
    assert t[m + 1..m + 10] == framed[1..10];
  }

  /** A delimited NaN of the raw text comes out of the three passes as null between its two
      delimiters, at the place in the output that the delimiter before it reaches. */
  lemma NaNBecomesNull(raw: string, i: int)
    requires MatchAt(raw, "NaN", i)
    ensures var m := SanitizedPos(raw, i - 1);
      m + 6 <= |Sanitize(raw)| && Sanitize(raw)[m] == raw[i - 1]
      && Sanitize(raw)[m + 1..m + 5] == Replacement && Sanitize(raw)[m + 5] == raw[i + 3]
  {
    TokensArePlain();
    var framed := [raw[i - 1]] + Replacement + [raw[i + 3]];
    var once := Sub(raw, "NaN");
    var twice := Sub(once, "Infinity");
    var k1 := MatchReplaced(raw, "NaN", i);
    assert once[k1..k1 + 6] == framed;
    FramedGuarded(raw[i - 1], Replacement, raw[i + 3], 'I');
    var k2 := GuardedKept(once, "Infinity", k1, k1 + 6);
    assert twice[k2..k2 + 6] == framed;
    FramedGuarded(raw[i - 1], Replacement, raw[i + 3], '-');
    var k3 := GuardedKept(twice, "-Infinity", k2, k2 + 6);
    NullAt(Sanitize(raw), raw[i - 1], raw[i + 3], k3);
  }

  /** A delimited Infinity of the raw text is kept by the NaN pass and comes out as null
      between its two delimiters, at the place the delimiter before it reaches. */
  lemma InfinityBecomesNull(raw: string, i: int)
    requires MatchAt(raw, "Infinity", i)
    ensures var m := SanitizedPos(raw, i - 1);
      m + 6 <= |Sanitize(raw)| && Sanitize(raw)[m] == raw[i - 1]
      && Sanitize(raw)[m + 1..m + 5] == Replacement && Sanitize(raw)[m + 5] == raw[i + 8]
  {
    TokensArePlain();
    var once := Sub(raw, "NaN");
    var twice := Sub(once, "Infinity");
    var framed := [raw[i - 1]] + "Infinity" + [raw[i + 8]];
    assert raw[i - 1..i + 9] == framed;
    FramedGuarded(raw[i - 1], "Infinity", raw[i + 8], 'N');
    var k1 := GuardedKept(raw, "NaN", i - 1, i + 9);
    InfinityAt(once, raw[i - 1], raw[i + 8], k1);
    assert MatchAt(once, "Infinity", k1 + 1);
    var k2 := MatchReplaced(once, "Infinity", k1 + 1);
    var replaced := [raw[i - 1]] + Replacement + [raw[i + 8]];
    assert twice[k2..k2 + 6] == replaced;
    FramedGuarded(raw[i - 1], Replacement, raw[i + 8], '-');
    var k3 := GuardedKept(twice, "-Infinity", k2, k2 + 6);
    NullAt(Sanitize(raw), raw[i - 1], raw[i + 8], k3);
  }

  /** A delimited -Infinity of the raw text is still a delimited -Infinity, between the same
      two characters, after the NaN pass and the Infinity pass, starting just after the place
      the delimiter before it reaches. */
  lemma MinusInfinityStillDelimited(raw: string, i: int)
    requires MatchAt(raw, "-Infinity", i)
    ensures var k := TwoPassPos(raw, i - 1);
      MatchAt(Sub(Sub(raw, "NaN"), "Infinity"), "-Infinity", k + 1)
      && Sub(Sub(raw, "NaN"), "Infinity")[k] == raw[i - 1]
      && Sub(Sub(raw, "NaN"), "Infinity")[k + 10] == raw[i + 9]
  {
    TokensArePlain();
    var once := Sub(raw, "NaN");
    var framed := [raw[i - 1]] + "-Infinity" + [raw[i + 9]];
    assert raw[i - 1..i + 10] == framed;
    FramedGuarded(raw[i - 1], "-Infinity", raw[i + 9], 'N');
    var k1 := GuardedKept(raw, "NaN", i - 1, i + 10);
    assert once[k1..k1 + 11] == framed;
    GuardedAfterDash(framed);
    var k2 := GuardedKept(once, "Infinity", k1, k1 + 11);
    MinusInfinityAt(Sub(once, "Infinity"), raw[i - 1], raw[i + 9], k2);
  }

  /** In a delimited -Infinity the I follows the minus sign, which is no left delimiter. */
  lemma GuardedAfterDash(framed: string)
    requires |framed| == 11 && LeftDelimiter(framed[0]) && framed[1..10] == "-Infinity"
    ensures Guarded(framed, 'I')
  {
    forall q | 0 < q < 11
      ensures framed[q] != 'I' || !LeftDelimiter(framed[q - 1])
    {
      if 1 < q < 11 {
        assert framed[q - 1] == "-Infinity"[q - 2];
      }
      if q < 10 {
        assert framed[q] == "-Infinity"[q - 1];
      }
    }
  }

  /** The third pass then replaces it: a delimited -Infinity of the raw text comes out as
      null between its two delimiters, at the place the delimiter before it reaches. */
  lemma MinusInfinityBecomesNull(raw: string, i: int)
    requires MatchAt(raw, "-Infinity", i)
    ensures var m := SanitizedPos(raw, i - 1);
      m + 6 <= |Sanitize(raw)| && Sanitize(raw)[m] == raw[i - 1]
      && Sanitize(raw)[m + 1..m + 5] == Replacement && Sanitize(raw)[m + 5] == raw[i + 9]
  {
    TokensArePlain();
    var twice := Sub(Sub(raw, "NaN"), "Infinity");
    MinusInfinityStillDelimited(raw, i);
    var k := TwoPassPos(raw, i - 1);
    var m := MatchReplaced(twice, "-Infinity", k + 1);
    NullAt(Sanitize(raw), raw[i - 1], raw[i + 9], m);
  }

  /** A stretch that opens with a left delimiter and in which no N, I or minus sign follows
      a left delimiter (so no token in it is delimited: a quoted "NaN", say) comes out of
      the three passes unchanged, at the place its first character reaches. */
  lemma GuardedSurvives(raw: string, lo: nat, hi: nat)
    requires lo < hi <= |raw|
    requires Guarded(raw[lo..hi], 'N') && Guarded(raw[lo..hi], 'I') && Guarded(raw[lo..hi], '-')
    ensures var m := SanitizedPos(raw, lo);
      m + (hi - lo) <= |Sanitize(raw)| && Sanitize(raw)[m..m + (hi - lo)] == raw[lo..hi]
  {
    TokensArePlain();
    var n := hi - lo;
    var once := Sub(raw, "NaN");
    var twice := Sub(once, "Infinity");
    var k1 := GuardedKept(raw, "NaN", lo, hi);
    assert once[k1..k1 + n] == raw[lo..hi];
    var k2 := GuardedKept(once, "Infinity", k1, k1 + n);
    assert twice[k2..k2 + n] == raw[lo..hi];
    var k3 := GuardedKept(twice, "-Infinity", k2, k2 + n);
  }

  /** In particular a quoted "NaN" after a delimiter, as in ["NaN"], survives all three
      passes. */
  lemma QuotedNaNSurvives(raw: string, i: int)
    requires 0 < i && i + 5 <= |raw| && LeftDelimiter(raw[i - 1]) && raw[i..i + 5] == "\"NaN\""
    ensures var m := SanitizedPos(raw, i - 1);
      m + 6 <= |Sanitize(raw)| && Sanitize(raw)[m + 1..m + 6] == "\"NaN\""
  {
    var body := "\"NaN";
    assert Plain(body);
    var w := [raw[i - 1]] + body + ['"'];
    assert raw[i - 1..i + 5] == w;
    FramedGuarded(raw[i - 1], body, '"', 'N');
    FramedGuarded(raw[i - 1], body, '"', 'I');
    FramedGuarded(raw[i - 1], body, '"', '-');
    GuardedSurvives(raw, i - 1, i + 5);
    var m := SanitizedPos(raw, i - 1);
    assert Sanitize(raw)[m + 1..m + 6] == w[1..6];
  }

  /** A text with no delimited NaN, Infinity or -Infinity is left as it is. */
  lemma CleanTextUnchanged(s: string)
    requires forall j :: 0 <= j < |s| ==> !MatchAt(s, "NaN", j)
    requires forall j :: 0 <= j < |s| ==> !MatchAt(s, "Infinity", j)
    requires forall j :: 0 <= j < |s| ==> !MatchAt(s, "-Infinity", j)
    ensures Sanitize(s) == s
  {
    NoMatchUnchanged(s, "NaN", 0);
    NoMatchUnchanged(s, "Infinity", 0);
    NoMatchUnchanged(s, "-Infinity", 0);
  }

  // ---------------------------------------------------------------------------------------
  // Worked examples

  /** The lookarounds are zero-width: both tokens of [NaN,NaN] are replaced. */
  lemma AdjacentTokens()
    ensures Sanitize("[NaN,NaN]") == "[null,null]"
  {
    AdjacentNaNPass();
    Absent("[null,null]", "Infinity");
    Absent("[null,null]", "-Infinity");
  }

  lemma AdjacentNaNPass()
    ensures Sub("[NaN,NaN]", "NaN") == "[null,null]"
  {
    var s := "[NaN,NaN]";
    assert SubFrom(s, "NaN", 8) == "]";
    assert MatchAt(s, "NaN", 5);
    assert SubFrom(s, "NaN", 5) == "null]";
    assert SubFrom(s, "NaN", 4) == ",null]";
    assert MatchAt(s, "NaN", 1);
    assert SubFrom(s, "NaN", 1) == "null,null]";
  }

  /** The third pass handles a delimited -Infinity. */
  lemma MinusInfinityReplaced()
    ensures Sanitize("[-Infinity]") == "[null]"
  {
    var s := "[-Infinity]";
    Absent(s, "NaN");
    NoInfinityInMinusInfinity();
    MinusInfinityPass();
  }

  lemma MinusInfinityPass()
    ensures Sub("[-Infinity]", "-Infinity") == "[null]"
  {
    var s := "[-Infinity]";
    assert MatchAt(s, "-Infinity", 1);
    assert SubFrom(s, "-Infinity", 10) == "]";
    assert SubFrom(s, "-Infinity", 1) == "null]";
    FirstCharMissing(s, "-Infinity", 0);
  }

  lemma NoInfinityInMinusInfinity()
    ensures Sub("[-Infinity]", "Infinity") == "[-Infinity]"
  {
    var s := "[-Infinity]";
    assert MatchAt(s, "-Infinity", 1);
    MinusInfinitySurvivesInfinityPass(s, 1);
    NoMatchUnchanged(s, "Infinity", 0);
  }

  /** A quoted token is untouched. */
  lemma QuotedKept()
    ensures Sanitize("[\"NaN\"]") == "[\"NaN\"]"
  {
    var s := "[\"NaN\"]";
    forall j | 0 <= j < |s|
      ensures !MatchAt(s, "NaN", j)
    {
      if j == 2 || j == 4 {
        assert !LeftDelimiter(s[j - 1]);
      } else {
        FirstCharMissing(s, "NaN", j);
      }
    }
    NoMatchUnchanged(s, "NaN", 0);
    Absent(s, "Infinity");
    Absent(s, "-Infinity");
  }

  /** No match starts at a character other than the token's first. */
  lemma FirstCharMissing(s: string, token: string, j: int)
    requires token != [] && 0 <= j < |s| && s[j] != token[0]
    ensures !MatchAt(s, token, j)
  {
    if j + |token| <= |s| {
      assert s[j..j + |token|][0] == s[j];
    }
  }

  /** A token at the end of the text is untouched: the lookahead has nothing to look at. */
  lemma TrailingKept()
    ensures Sanitize("[NaN") == "[NaN"
  {
    var s := "[NaN";
    NoMatchUnchanged(s, "NaN", 0);
    Absent(s, "Infinity");
    Absent(s, "-Infinity");
  }
}
