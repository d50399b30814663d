/**
 * Three places where src/RekordboxPlaylistFormatter/Key.php does not do what
 * its own tables evidently intend, each shown on the code as written and
 * followed by the corrected definition with the intended property proved:
 *
 *  - the three-token path appends the mode word unresolved, so no display
 *    whose accidental is written as a word ever parses back;
 *  - the two-token path reads a single byte after the pitch, so the
 *    three-byte flat sign of the default display is read as natural;
 *  - isCamelotMatch measures the distance on the line 1..12, so 12 and 1,
 *    neighbours on the wheel, do not match.
 */
module KeyFindings {
  import opened Outcomes
  import opened ByteStrings
  import opened PhpArrays
  import opened KeyNotation
  import opened KeyProperties

  // ---------------------------------------------------------------------
  // The three-token path, as written

  /** A sharp or flat written as a word: a leading space, then a vocabulary word for its digit. */
  lemma AccidentalWordRead(a: char)
    requires a in Accidental && a != NATURAL[0]
    ensures var name := if a == SHARP[0] then "sharp" else "flat";
      && Lower(Accidental[a][FORMAT_ACCIDENTAL_FULLTEXT]) == " " + name
      && ' ' !in name && KeywordAsInt(name) == [a]
  {
    GlyphLowered(a, FORMAT_ACCIDENTAL_FULLTEXT);
    if a == SHARP[0] {
      assert "sharp"[0] == 's';
      assert KeywordAsInt("sharp") == SHARP;
    } else {
      assert "flat"[0] == 'f';
      assert KeywordAsInt("flat") == FLAT;
    }
  }

  /** Three tokens whose middle one is a word: the word is resolved, the mode word kept. */
  lemma WordTokens(p: char, glyph: string, name: string, m: char, rf: int)
    requires 'a' <= p <= 'g' && glyph == " " + name && ' ' !in name && m in Relative && rf in RelativeFormats
    ensures CandidateCode([p] + glyph + " " + Lower(Relative[m][rf])) ==
      [p] + KeywordAsInt(name) + RTrim(Lower(Relative[m][rf]), ModeTrimBytes)
    ensures IntendedCandidate([p] + glyph + " " + Lower(Relative[m][rf])) == [p] + KeywordAsInt(name) + [m]
  {
    var word := Lower(Relative[m][rf]);
    assert [p] + glyph + " " + word == [p] + " " + name + " " + word;
    ReadThreeTokens(p, name, m, rf);
    IntendedReadThree(p, name, m, rf);
  }

  /** The candidate read from such a display: pitch, accidental digit, then the mode word as it stands. */
  lemma WordDisplayCandidate(p: char, a: char, m: char, rf: int)
    requires 'a' <= p <= 'g' && a in Accidental && a != NATURAL[0] && m in Relative && rf in RelativeFormats
    ensures CandidateCode([p] + Lower(Accidental[a][FORMAT_ACCIDENTAL_FULLTEXT]) + " " + Lower(Relative[m][rf])) ==
      [p, a] + RTrim(Lower(Relative[m][rf]), ModeTrimBytes)
  {
    AccidentalWordRead(a);
    WordTokens(p, Lower(Accidental[a][FORMAT_ACCIDENTAL_FULLTEXT]), if a == SHARP[0] then "sharp" else "flat", m, rf);
  }

  /**
   * The display of a key whose accidental is a word ("F Sharp Minor") is read
   * as three tokens, and the candidate ends with the mode word itself ("f1minor"):
   * parse throws on every such display.
   */
  lemma ThreeTokenModeKept(k: Key)
    requires k.Valid() && k.key[1] != NATURAL[0] && k.accidentalFormat == FORMAT_ACCIDENTAL_FULLTEXT
    ensures var word := RTrim(Lower(Relative[k.key[2]][k.relativeFormat]), ModeTrimBytes);
      ParseCode(k.ToString()) == Failure(InvalidFormat(Lower(Trim(k.ToString())), [k.key[0], k.key[1]] + word))
  {
    var norm := DisplayNormal(k);
    var c := k.key;
    WordDisplayCandidate(c[0], c[1], c[2], k.relativeFormat);
    ReadWordDisplay(c[0], c[1], c[2], k.relativeFormat);
    CodeLength(CandidateCode(norm));
    ParseTraditional(k.ToString(), norm);
  }

  // ---------------------------------------------------------------------
  // The corrected reading of traditional notation

  /**
   * The candidate as evidently intended: in two tokens the accidental is the
   * whole rest of the first token, and in three tokens the mode word is
   * resolved like the accidental word.
   */
  function IntendedCandidate(key: string): string {
    var stringSegments := Explode(key, ' ');
    if |stringSegments| == 2 then
      var pitch := Prefix(stringSegments[0], 1);
      var accidental := if |stringSegments[0]| >= 2 then KeywordAsInt(stringSegments[0][1..]) else NATURAL;
      var relative := KeywordAsInt(RTrim(stringSegments[1], ModeTrimBytes));
      pitch + accidental + relative
    else if |stringSegments| == 3 then
      stringSegments[0] + KeywordAsInt(stringSegments[1]) + KeywordAsInt(RTrim(stringSegments[2], ModeTrimBytes))
    else
      ""
  }

  /** parse with the corrected candidate; the Camelot path is unchanged. */
  function ParseCodeIntended(raw: string): (r: Result<string, ParseError>)
    ensures r.Success? ==> IsTableCode(r.value)
    ensures r.Failure? ==> r.error.input == Lower(Trim(raw))
    ensures r.Failure? && r.error.InvalidFormat? ==> !IsTableCode(r.error.candidate)
  {
    var key := Lower(Trim(raw));
    if IsCamelotKey(key) then
      match Search(Conversions, key)
      case Some(code) => Success(code)
      case None => Failure(UnlistedCamelot(key))
    else
      var parsedKey := IntendedCandidate(key);
      if IsTableCode(parsedKey) then Success(parsedKey)
      else Failure(InvalidFormat(key, parsedKey))
  }

  /** The correction changes nothing where the source reads a first token of at most two bytes in two tokens. */
  lemma IntendedAgreesOnTwoTokens(key: string)
    requires |Explode(key, ' ')| == 2 && |Explode(key, ' ')[0]| <= 2
    ensures IntendedCandidate(key) == CandidateCode(key)
  {
    var segments := Explode(key, ' ');
    if |segments[0]| == 2 {
      assert segments[0][1..] == segments[0][1..2];
    }
  }

  /** Nor where three tokens end in a numeric mode, which keywordAsInt leaves as it is. */
  lemma IntendedAgreesOnNumericMode(key: string)
    requires |Explode(key, ' ')| == 3 && IsDigits(RTrim(Explode(key, ' ')[2], ModeTrimBytes))
    ensures IntendedCandidate(key) == CandidateCode(key)
  {
  }

  /** parse and the corrected parse agree wherever their candidates do. */
  lemma IntendedAgrees(raw: string)
    requires IntendedCandidate(Lower(Trim(raw))) == CandidateCode(Lower(Trim(raw)))
    ensures ParseCodeIntended(raw) == ParseCode(raw)
  {
  }

  /** Two tokens: the rest of the first token is the accidental. */
  lemma IntendedReadTwo(p: char, glyph: string, mode: char, rf: int)
    requires 'a' <= p <= 'g' && ' ' !in glyph && mode in Relative && rf in RelativeFormats
    ensures IntendedCandidate([p] + glyph + " " + Lower(Relative[mode][rf])) ==
      [p] + (if glyph == [] then NATURAL else KeywordAsInt(glyph)) + [mode]
  {
    var word := Lower(Relative[mode][rf]);
    var first := [p] + glyph;
    ModeWordRead(mode, rf);
    ExplodeTwo(first, ' ', word);
    assert Explode(first + " " + word, ' ') == [first, word];
    assert Prefix(first, 1) == [p];
    assert first[1..] == glyph;
  }

  /** Three tokens: the accidental word and the mode word are both resolved. */
  lemma IntendedReadThree(p: char, name: string, mode: char, rf: int)
    requires 'a' <= p <= 'g' && ' ' !in name && mode in Relative && rf in RelativeFormats
    ensures IntendedCandidate([p] + " " + name + " " + Lower(Relative[mode][rf])) ==
      [p] + KeywordAsInt(name) + [mode]
  {
    ModeWordRead(mode, rf);
    ExplodeThree([p], ' ', name, Lower(Relative[mode][rf]));
  }

  /** Every sharp or flat glyph that is not a word reads back as its digit. */
  lemma GlyphRead(a: char, af: int)
    requires a in Accidental && a != NATURAL[0] && af in AccidentalFormats && af != FORMAT_ACCIDENTAL_FULLTEXT
    ensures var glyph := Lower(Accidental[a][af]);
      glyph != [] && ' ' !in glyph && KeywordAsInt(glyph) == [a]
  {
    GlyphLowered(a, af);
    var glyph := Lower(Accidental[a][af]);
    if a == SHARP[0] {
      assert glyph == "#" && glyph[0] == '#';
    } else if af == FORMAT_ACCIDENTAL_SHORT {
      assert glyph == "b" && glyph[0] == 'b';
    } else {
      assert glyph == UNICODE_FLAT_CHARACTER && glyph[0] == '\U{E2}';
      KeywordFlat(glyph);
    }
  }

  /** A sharp or flat written as a word is read back by the corrected three-token path. */
  lemma IntendedReadWord(p: char, a: char, m: char, rf: int)
    requires 'a' <= p <= 'g' && a in Accidental && a != NATURAL[0] && m in Relative && rf in RelativeFormats
    ensures IntendedCandidate([p] + Lower(Accidental[a][FORMAT_ACCIDENTAL_FULLTEXT]) + " " + Lower(Relative[m][rf])) == [p, a, m]
  {
    AccidentalWordRead(a);
    WordTokens(p, Lower(Accidental[a][FORMAT_ACCIDENTAL_FULLTEXT]), if a == SHARP[0] then "sharp" else "flat", m, rf);
  }

  /** What the corrected parse reads from a display: pitch, the accidental digit and the mode digit. */
  lemma IntendedReadDisplay(p: char, a: char, m: char, af: int, rf: int)
    requires 'a' <= p <= 'g' && a in Accidental && m in Relative && af in AccidentalFormats && rf in RelativeFormats
    ensures IntendedCandidate([p] + Lower(Accidental[a][af]) + " " + Lower(Relative[m][rf])) == [p, a, m]
  {
    var glyph := Lower(Accidental[a][af]);
    if a == NATURAL[0] {
      GlyphLowered(a, af);
      IntendedReadTwo(p, glyph, m, rf);
    } else if af == FORMAT_ACCIDENTAL_FULLTEXT {
      IntendedReadWord(p, a, m, rf);
    } else {
      GlyphRead(a, af);
      IntendedReadTwo(p, glyph, m, rf);
    }
  }

  /** The corrected parse on a text that is not Camelot-shaped once normalised: the candidate decides. */
  lemma IntendedTraditional(raw: string, key: string)
    requires Lower(Trim(raw)) == key && !IsCamelotKey(key)
    ensures IsTableCode(IntendedCandidate(key)) ==> ParseCodeIntended(raw) == Success(IntendedCandidate(key))
  {
  }

  /** Every display, in every format, parses back to its own code under the corrected reading. */
  lemma IntendedRoundTrip(k: Key)
    requires k.Valid()
    ensures ParseCodeIntended(k.ToString()) == Success(k.key)
  {
    var norm := DisplayNormal(k);
    var c := k.key;
    IntendedReadDisplay(c[0], c[1], c[2], k.accidentalFormat, k.relativeFormat);
    assert c == [c[0], c[1], c[2]];
    IntendedTraditional(k.ToString(), norm);
  }

  // ---------------------------------------------------------------------
  // The compatibility check on the wheel

  /**
   * Two wheel positions are equal or neighbours round the circle exactly when
   * their difference is at most one, or eleven (12 and 1).
   */
  predicate Adjacent(difference: int) {
    -1 <= difference <= 1 || difference == 11 || difference == -11
  }

  /**
   * isCamelotMatch as the wheel evidently intends: positions at most one step
   * apart counting round the circle of twelve, so 12 and 1 are neighbours.
   */
  function IsCamelotMatchCircular(a: string, b: string): (r: bool)
    requires Comparable(a, b)
    ensures r ==> SplitCamelotKey(a).1 == SplitCamelotKey(b).1 || SplitCamelotKey(a).0 == SplitCamelotKey(b).0
  {
    var splitA := SplitCamelotKey(a);
    var splitB := SplitCamelotKey(b);
    var difference := DigitsValue(splitA.0) - DigitsValue(splitB.0);
    if !Adjacent(difference) then false
    else if splitA.1 != splitB.1 && splitA.0 != splitB.0 then false
    else true
  }

  /** The position after `n` going round the wheel. */
  function NextPosition(n: nat): nat
    requires 1 <= n <= 12
  {
    if n == 12 then 1 else n + 1
  }

  /**
   * On the wheel: compatible exactly when the positions are equal or one comes
   * right after the other round the circle, and the letters or positions agree.
   */
  lemma CircularOnWheel(n: nat, x: char, m: nat, y: char)
    requires 1 <= n <= 12 && 1 <= m <= 12 && !('0' <= x <= '9') && !('0' <= y <= '9')
    ensures Comparable(CamelotName(n, x), CamelotName(m, y))
    ensures IsCamelotMatchCircular(CamelotName(n, x), CamelotName(m, y)) <==>
      (n == m || m == NextPosition(n) || n == NextPosition(m)) && (x == y || n == m)
  {
    var a, b := CamelotName(n, x), CamelotName(m, y);
    SlotsCompared(n, x, m, y);
    CircularByParts(a, b);
    AdjacentPositions(n, m);
  }

  /** On the wheel, adjacency by difference is adjacency by the next position. */
  lemma AdjacentPositions(n: nat, m: nat)
    requires 1 <= n <= 12 && 1 <= m <= 12
    ensures Adjacent(n - m) <==> n == m || m == NextPosition(n) || n == NextPosition(m)
  {
  }

  /** The circular check in terms of the two split keys. */
  lemma CircularByParts(a: string, b: string)
    requires Comparable(a, b)
    ensures var splitA, splitB := SplitCamelotKey(a), SplitCamelotKey(b);
      IsCamelotMatchCircular(a, b) <==>
        Adjacent(DigitsValue(splitA.0) - DigitsValue(splitB.0)) && (splitA.1 == splitB.1 || splitA.0 == splitB.0)
  {
  }

  /** Every pair the source accepts is accepted round the circle too; the correction only adds the wrap. */
  lemma LinearImpliesCircular(a: string, b: string)
    requires Comparable(a, b)
    ensures IsCamelotMatch(a, b) ==> IsCamelotMatchCircular(a, b)
  {
  }

  /** 1A and 12A match round the circle, where the source rejects them. */
  lemma CircularWraps()
    ensures Comparable("1A", "12A")
    ensures IsCamelotMatchCircular("1A", "12A") && !IsCamelotMatch("1A", "12A")
  {
    NameTexts();
    CircularOnWheel(1, 'A', 12, 'A');
    MatchOnWheel(1, 'A', 12, 'A');
  }
}
