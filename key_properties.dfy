/**
 * What the key engine of src/RekordboxPlaylistFormatter/Key.php guarantees:
 * the table is a bijection onto the 24 wheel slots, Camelot text parses back
 * to its code, the keyword vocabulary, what parse makes of every display form,
 * the compatibility rule in wheel terms, and how options accumulate.
 */
module KeyProperties {
  import opened Outcomes
  import opened ByteStrings
  import opened PhpArrays
  import opened KeyNotation

  // ---------------------------------------------------------------------
  // The wheel and the table

  /** The decimal text of a wheel position. */
  function PositionText(n: nat): (r: string)
    requires 1 <= n <= 12
    ensures IsDigits(r) && DigitsValue(r) == n && 1 <= |r| <= 2
  {
    if n < 10 then [('0' as int + n) as char]
    else
      var r := ['1', ('0' as int + n - 10) as char];
      assert r[..1] == ['1'];
      r
  }

  /** A wheel slot written out: the position's text and then its letter. */
  function CamelotName(n: nat, letter: char): (r: string)
    requires 1 <= n <= 12
    ensures 2 <= |r| <= 3 && r[|r| - 1] == letter && r[..|r| - 1] == PositionText(n)
  {
    PositionText(n) + [letter]
  }

  /** Different positions have different texts. */
  lemma PositionTextInjective(n: nat, m: nat)
    requires 1 <= n <= 12 && 1 <= m <= 12
    ensures PositionText(n) == PositionText(m) <==> n == m
  {
  }

  /** The table lists the slots in wheel order: 1A, 1B, 2A, 2B, ... 12A, 12B. */
  lemma MinorSlots(n: nat)
    requires 1 <= n <= 12
    ensures Conversions[2 * n - 2].1 == CamelotName(n, 'a')
  {
  }

  lemma MajorSlots(n: nat)
    requires 1 <= n <= 12
    ensures Conversions[2 * n - 1].1 == CamelotName(n, 'b')
  {
  }

  lemma TableSlots(n: nat)
    requires 1 <= n <= 12
    ensures Conversions[2 * n - 2].1 == CamelotName(n, 'a')
    ensures Conversions[2 * n - 1].1 == CamelotName(n, 'b')
  {
    MinorSlots(n);
    MajorSlots(n);
  }

  /** The slot at a table index. */
  lemma SlotAt(i: nat)
    requires i < |Conversions|
    ensures Conversions[i].1 == CamelotName(i / 2 + 1, if i % 2 == 0 then 'a' else 'b')
  {
    var n := i / 2 + 1;
    if i % 2 == 0 {
      assert i == 2 * n - 2;
      MinorSlots(n);
    } else {
      assert i == 2 * n - 1;
      MajorSlots(n);
    }
  }

  /** Where a wheel slot stands in the table. */
  function SlotIndex(n: nat, letter: char): (i: nat)
    requires 1 <= n <= 12 && (letter == 'a' || letter == 'b')
    ensures i < |Conversions| && Conversions[i].1 == CamelotName(n, letter)
  {
    TableSlots(n);
    if letter == 'a' then 2 * n - 2 else 2 * n - 1
  }

  /** Every code of the table is three bytes long, so no longer or shorter candidate is listed. */
  lemma CodeLength(code: string)
    requires |code| != 3
    ensures !IsTableCode(code)
  {
    if IsTableCode(code) {
      TableCodeShape(code);
    }
  }

  /** A slot written with any non-digit letter splits into the position's text and that letter. */
  lemma SplitName(n: nat, letter: char)
    requires 1 <= n <= 12 && !('0' <= letter <= '9')
    ensures SplitCamelotKey(CamelotName(n, letter)) == (PositionText(n), [letter])
  {
    var key := CamelotName(n, letter);
    assert key[..|key| - 1] == PositionText(n);
    assert letter !in key[..|key| - 1];
    var r := SplitCamelotKey(key);
    assert r.0 + r.1 == key;
    assert r.0 == (r.0 + r.1)[..|r.0|];
  }

  /** Every slot of the wheel, written in lower case, is recognised as Camelot notation. */
  lemma NameIsCamelot(n: nat, letter: char)
    requires 1 <= n <= 12 && (letter == 'a' || letter == 'b')
    ensures IsCamelotKey(CamelotName(n, letter))
  {
    var key := CamelotName(n, letter);
    LowerUntouched(key);
    SplitName(n, letter);
  }

  /** Where a listed Camelot value stands in the table, and that array_search finds its code there. */
  lemma ValueIndex(v: string) returns (i: nat)
    requires exists j :: 0 <= j < |Conversions| && Conversions[j].1 == v
    ensures i < |Conversions| && Conversions[i].1 == v && Search(Conversions, v) == Some(Conversions[i].0)
  {
    i :| 0 <= i < |Conversions| && Conversions[i].1 == v;
    ValuesDistinct();
    SearchAt(Conversions, i);
  }

  /** A Camelot key written the way the table writes it: no leading zero, the letter once. */
  predicate CanonicalCamelot(key: string) {
    && key != [] && NumericInRange(SplitCamelotKey(key).0)
    && key == CamelotName(DigitsValue(SplitCamelotKey(key).0), key[|key| - 1])
  }

  /** Every table value is written that way. */
  lemma ValueCanonical(i: nat)
    requires i < |Conversions|
    ensures CanonicalCamelot(Conversions[i].1)
  {
    SlotAt(i);
    SplitName(i / 2 + 1, if i % 2 == 0 then 'a' else 'b');
  }

  /** A listed Camelot value is written canonically. */
  lemma ListedCanonical(key: string)
    requires exists j :: 0 <= j < |Conversions| && Conversions[j].1 == key
    ensures CanonicalCamelot(key)
  {
    var i := ValueIndex(key);
    ValueCanonical(i);
  }

  /** A canonically written slot is listed. */
  lemma CanonicalListed(key: string)
    requires CanonicalCamelot(key) && (key[|key| - 1] == 'a' || key[|key| - 1] == 'b')
    ensures Search(Conversions, key).Some?
  {
    var i := SlotIndex(DigitsValue(SplitCamelotKey(key).0), key[|key| - 1]);
    assert Conversions[i].1 == key;
  }

  /**
   * A key of Camelot shape is listed exactly when it is written canonically;
   * the other Camelot-shaped keys ("01a", "1aa") are the ones parse cannot find.
   */
  lemma CamelotListed(key: string)
    requires IsCamelotKey(key) && Lower(key) == key
    ensures Search(Conversions, key).Some? <==> CanonicalCamelot(key)
  {
    if Search(Conversions, key).Some? {
      ListedCanonical(key);
    } else if CanonicalCamelot(key) {
      assert (key[|key| - 1] == 'a' || key[|key| - 1] == 'b');
      CanonicalListed(key);
    }
  }

  /** Any spelling of a table value that trims and lower-cases to it parses to its code. */
  lemma CamelotSurface(s: string, i: nat)
    requires i < |Conversions| && Lower(Trim(s)) == Conversions[i].1
    ensures ParseCode(s) == Success(Conversions[i].0)
  {
    var key := Conversions[i].1;
    ValueIsCamelot(i);
    ValuesDistinct();
    SearchAt(Conversions, i);
    ParseCamelot(s, key);
  }

  /** Every table value is Camelot notation. */
  lemma ValueIsCamelot(i: nat)
    requires i < |Conversions|
    ensures IsCamelotKey(Conversions[i].1)
  {
    SlotAt(i);
    NameIsCamelot(i / 2 + 1, if i % 2 == 0 then 'a' else 'b');
  }

  /** parse on a text that is Camelot-shaped once normalised: array_search decides. */
  lemma ParseCamelot(raw: string, key: string)
    requires Lower(Trim(raw)) == key && IsCamelotKey(key)
    ensures Search(Conversions, key).Some? ==> ParseCode(raw) == Success(Search(Conversions, key).value)
    ensures Search(Conversions, key).None? ==> ParseCode(raw) == Failure(UnlistedCamelot(key))
  {
  }

  /** The upper-cased table value trims and lower-cases back to itself. */
  lemma UpperValueNormalises(i: nat)
    requires i < |Conversions|
    ensures Lower(Trim(Upper(Conversions[i].1))) == Conversions[i].1
  {
    var v := Conversions[i].1;
    SlotAt(i);
    var u := Upper(v);
    assert u[0] == v[0] && (u[|u| - 1] == 'A' || u[|u| - 1] == 'B');
    TrimUntouched(u);
    LowerOfUpper(v);
    LowerUntouched(v);
  }

  /** Camelot round trip: parse(toCamelot()) is a key with the same code. */
  lemma CamelotRoundTrip(k: Key)
    requires k.Valid()
    ensures ParseCode(k.ToCamelot()) == Success(k.key)
  {
    var i := TableIndex(k.key);
    UpperValueNormalises(i);
    CamelotSurface(Upper(Conversions[i].1), i);
  }

  // ---------------------------------------------------------------------
  // The keyword vocabulary

  /** The words keywordAsInt knows. */
  predicate InVocabulary(s: string) {
    || s == "b" || s == UNICODE_FLAT_CHARACTER || s == "flat" || s == "#" || s == "sharp"
    || s == "major" || s == "maj." || s == "maj" || s == "minor" || s == "min." || s == "min"
  }

  /** keywordAsInt gives the flat value for the flat words and for the text "2" only. */
  lemma KeywordFlat(s: string)
    ensures KeywordAsInt(s) == FLAT <==> s == "b" || s == UNICODE_FLAT_CHARACTER || s == "flat" || s == "2"
  {
    if IsDigits(s) {
      assert KeywordAsInt(s) == s && '0' <= s[0] <= '9';
    } else {
      assert s != FLAT;
    }
  }

  /** The text "1" stands for both sharp and major, so the sharp and major words all give it. */
  lemma KeywordSharpOrMajor(s: string)
    ensures SHARP == MAJOR
    ensures KeywordAsInt(s) == SHARP <==>
      s == "#" || s == "sharp" || s == "major" || s == "maj." || s == "maj" || s == "1"
  {
    if IsDigits(s) {
      assert KeywordAsInt(s) == s && '0' <= s[0] <= '9';
    } else {
      assert s != SHARP;
    }
  }

  /** keywordAsInt gives the minor value for the minor words and for the text "0" only. */
  lemma KeywordMinor(s: string)
    ensures KeywordAsInt(s) == MINOR <==> s == "minor" || s == "min." || s == "min" || s == "0"
  {
    if IsDigits(s) {
      assert KeywordAsInt(s) == s && '0' <= s[0] <= '9';
    } else {
      assert s != MINOR;
    }
  }

  /** 999 comes from a text outside the vocabulary that is not numeric, or from "999" itself. */
  lemma KeywordNotFound(s: string)
    ensures KeywordAsInt(s) == NOT_FOUND <==> s == NOT_FOUND || (!IsDigits(s) && !InVocabulary(s))
  {
    if IsDigits(s) {
      assert KeywordAsInt(s) == s && '0' <= s[0] <= '9';
    } else {
      assert s != NOT_FOUND;
    }
  }

  // ---------------------------------------------------------------------
  // What parse makes of toString

  lemma MinorWordRead(rf: int)
    requires rf in RelativeFormats
    ensures var word := Lower(Relative[MINOR[0]][rf]);
      && 4 <= |word| && ' ' !in word && Relative[MINOR[0]][rf][|word| - 1] !in TrimBytes
      && |RTrim(word, ModeTrimBytes)| >= 3 && KeywordAsInt(RTrim(word, ModeTrimBytes)) == MINOR
  {
    var word := Lower(Relative[MINOR[0]][rf]);
    if rf == FORMAT_RELATIVE_FULLTEXT {
      assert word == "minor";
      RTrimUntouched(word, ModeTrimBytes);
    } else {
      assert word == "min" + ['.'];
      RTrimOne("min", '.', ModeTrimBytes);
    }
  }

  lemma MajorWordRead(rf: int)
    requires rf in RelativeFormats
    ensures var word := Lower(Relative[MAJOR[0]][rf]);
      && 4 <= |word| && ' ' !in word && Relative[MAJOR[0]][rf][|word| - 1] !in TrimBytes
      && |RTrim(word, ModeTrimBytes)| >= 3 && KeywordAsInt(RTrim(word, ModeTrimBytes)) == MAJOR
  {
    var word := Lower(Relative[MAJOR[0]][rf]);
    if rf == FORMAT_RELATIVE_FULLTEXT {
      assert word == "major";
      RTrimUntouched(word, ModeTrimBytes);
    } else {
      assert word == "maj" + ['.'];
      RTrimOne("maj", '.', ModeTrimBytes);
    }
  }

  /** Every mode word, lower-cased and stripped of its dot, is read back as its mode digit. */
  lemma ModeWordRead(mode: char, rf: int)
    requires mode in Relative && rf in RelativeFormats
    ensures var word := Lower(Relative[mode][rf]);
      && 4 <= |word| && ' ' !in word && Relative[mode][rf][|word| - 1] !in TrimBytes
      && |RTrim(word, ModeTrimBytes)| >= 3 && KeywordAsInt(RTrim(word, ModeTrimBytes)) == [mode]
  {
    if mode == MINOR[0] {
      MinorWordRead(rf);
    } else {
      MajorWordRead(rf);
    }
  }

  /** The display of pitch, glyph and mode word, trimmed and lower-cased as parse does first. */
  lemma DisplayNormalised(p: char, glyph: string, word: string)
    requires 'a' <= p <= 'g' && word != [] && word[|word| - 1] !in TrimBytes
    ensures Lower(Trim([UpperByte(p)] + glyph + " " + word)) == [p] + Lower(glyph) + " " + Lower(word)
  {
    var s := [UpperByte(p)] + glyph + " " + word;
    assert s[|s| - 1] == word[|word| - 1];
    TrimUntouched(s);
    LowerAppend([UpperByte(p)] + glyph + " ", word);
    LowerAppend([UpperByte(p)] + glyph, " ");
    LowerAppend([UpperByte(p)], glyph);
  }

  /** Two tokens: the accidental is read only when the glyph is a single byte. */
  lemma ReadTwoTokens(p: char, glyph: string, mode: char, rf: int)
    requires 'a' <= p <= 'g' && ' ' !in glyph && mode in Relative && rf in RelativeFormats
    ensures CandidateCode([p] + glyph + " " + Lower(Relative[mode][rf])) ==
      [p] + (if |glyph| == 1 then KeywordAsInt(glyph) else NATURAL) + [mode]
  {
    var word := Lower(Relative[mode][rf]);
    var first := [p] + glyph;
    ModeWordRead(mode, rf);
    ExplodeTwo(first, ' ', word);
    assert Explode(first + " " + word, ' ') == [first, word];
    assert Prefix(first, 1) == [p];
    if |glyph| == 1 {
      assert first[1..2] == glyph;
    }
  }

  /** Three tokens: the accidental word is resolved, the mode word is appended as it stands. */
  lemma ReadThreeTokens(p: char, accidental: string, mode: char, rf: int)
    requires 'a' <= p <= 'g' && ' ' !in accidental && mode in Relative && rf in RelativeFormats
    ensures var word := Lower(Relative[mode][rf]);
      CandidateCode([p] + " " + accidental + " " + word) ==
        [p] + KeywordAsInt(accidental) + RTrim(word, ModeTrimBytes)
  {
    var word := Lower(Relative[mode][rf]);
    ModeWordRead(mode, rf);
    ExplodeThree([p], ' ', accidental, word);
  }

  /** The glyphs lower-cased: the word forms keep their leading space, the others have none. */
  lemma GlyphLowered(a: char, af: int)
    requires a in Accidental && af in AccidentalFormats
    ensures var glyph := Lower(Accidental[a][af]);
      && (a == NATURAL[0] ==> glyph == "")
      && (a == SHARP[0] && af != FORMAT_ACCIDENTAL_FULLTEXT ==> glyph == "#")
      && (a == FLAT[0] && af == FORMAT_ACCIDENTAL_SHORT ==> glyph == "b")
      && (a == FLAT[0] && af == FORMAT_ACCIDENTAL_UNICODE ==> glyph == UNICODE_FLAT_CHARACTER)
      && (a == SHARP[0] && af == FORMAT_ACCIDENTAL_FULLTEXT ==> glyph == " " + "sharp")
      && (a == FLAT[0] && af == FORMAT_ACCIDENTAL_FULLTEXT ==> glyph == " " + "flat")
  {
  }

  /** The flat keys of the table and their natural twins, seven wheel positions on. */
  function NaturalTwin(i: nat): (j: nat)
    requires i < |Conversions| && Conversions[i].0[1] == FLAT[0]
    ensures j < |Conversions| && j != i
    ensures Conversions[j].0 == [Conversions[i].0[0], NATURAL[0], Conversions[i].0[2]]
  {
    (i + 14) % 24
  }

  /** parse on a text that is not Camelot-shaped once normalised: the candidate decides. */
  lemma ParseTraditional(raw: string, key: string)
    requires Lower(Trim(raw)) == key && !IsCamelotKey(key)
    ensures IsTableCode(CandidateCode(key)) ==> ParseCode(raw) == Success(CandidateCode(key))
    ensures !IsTableCode(CandidateCode(key)) ==> ParseCode(raw) == Failure(InvalidFormat(key, CandidateCode(key)))
  {
  }

  /** What parse reads from toString, once trimmed and lower-cased: never Camelot-shaped. */
  lemma DisplayNormal(k: Key) returns (norm: string)
    requires k.Valid()
    ensures norm == [k.key[0]] + Lower(Accidental[k.key[1]][k.accidentalFormat]) + " "
                    + Lower(Relative[k.key[2]][k.relativeFormat])
    ensures Lower(Trim(k.ToString())) == norm && !IsCamelotKey(norm)
  {
    var glyph, word := Accidental[k.key[1]][k.accidentalFormat], Relative[k.key[2]][k.relativeFormat];
    assert k.ToString() == [UpperByte(k.key[0])] + glyph + " " + word;
    ModeWordRead(k.key[2], k.relativeFormat);
    DisplayNormalised(k.key[0], glyph, word);
    norm := [k.key[0]] + Lower(glyph) + " " + Lower(word);
  }

  /** The candidate read from a display whose accidental is one byte or absent is the code itself. */
  lemma ReadShortDisplay(p: char, a: char, m: char, af: int, rf: int)
    requires 'a' <= p <= 'g' && a in Accidental && m in Relative && af in AccidentalFormats && rf in RelativeFormats
    requires a == NATURAL[0] || af == FORMAT_ACCIDENTAL_SHORT || (a == SHARP[0] && af == FORMAT_ACCIDENTAL_UNICODE)
    ensures CandidateCode([p] + Lower(Accidental[a][af]) + " " + Lower(Relative[m][rf])) == [p, a, m]
  {
    var glyph := Lower(Accidental[a][af]);
    GlyphLowered(a, af);
    ReadTwoTokens(p, glyph, m, rf);
    if a == NATURAL[0] {
      assert glyph == "";
    } else if a == SHARP[0] {
      assert glyph == "#" && !IsDigits(glyph);
    } else {
      assert glyph == "b" && !IsDigits(glyph);
    }
  }

  /** parse(toString()) gives the same code whenever the accidental is written as one byte or not at all. */
  lemma DisplayRoundTrip(k: Key)
    requires k.Valid()
    requires || k.key[1] == NATURAL[0] || k.accidentalFormat == FORMAT_ACCIDENTAL_SHORT
             || (k.key[1] == SHARP[0] && k.accidentalFormat == FORMAT_ACCIDENTAL_UNICODE)
    ensures ParseCode(k.ToString()) == Success(k.key)
  {
    var norm := DisplayNormal(k);
    var c := k.key;
    ReadShortDisplay(c[0], c[1], c[2], k.accidentalFormat, k.relativeFormat);
    assert c == [c[0], c[1], c[2]];
    ParseTraditional(k.ToString(), norm);
  }

  /**
   * The default display of a flat key, with the multi-byte flat sign, parses to
   * its natural twin: "A\u266D Minor" (1A) comes back as A Minor (8A).
   */
  lemma DisplayFlatSign(k: Key)
    requires k.Valid() && k.key[1] == FLAT[0] && k.accidentalFormat == FORMAT_ACCIDENTAL_UNICODE
    ensures ParseCode(k.ToString()) == Success([k.key[0], NATURAL[0], k.key[2]])
    ensures k.key != [k.key[0], NATURAL[0], k.key[2]]
  {
    var norm := DisplayNormal(k);
    var c := k.key;
    GlyphLowered(c[1], k.accidentalFormat);
    ReadTwoTokens(c[0], Lower(Accidental[c[1]][k.accidentalFormat]), c[2], k.relativeFormat);
    var twin := [c[0], NATURAL[0], c[2]];
    assert CandidateCode(norm) == twin;
    var i := TableIndex(c);
    var j := NaturalTwin(i);
    CodesDistinct();
    GetAt(Conversions, j);
    ParseTraditional(k.ToString(), norm);
  }

  /** A sharp or flat written as a word makes three tokens, and the candidate is too long for the table. */
  lemma ReadWordDisplay(p: char, a: char, m: char, rf: int)
    requires 'a' <= p <= 'g' && a in Accidental && a != NATURAL[0] && m in Relative && rf in RelativeFormats
    ensures |CandidateCode([p] + Lower(Accidental[a][FORMAT_ACCIDENTAL_FULLTEXT]) + " " + Lower(Relative[m][rf]))| > 3
  {
    GlyphLowered(a, FORMAT_ACCIDENTAL_FULLTEXT);
    var name := if a == SHARP[0] then "sharp" else "flat";
    var word := Lower(Relative[m][rf]);
    assert [p] + Lower(Accidental[a][FORMAT_ACCIDENTAL_FULLTEXT]) + " " + word == [p] + " " + name + " " + word;
    ReadThreeTokens(p, name, m, rf);
    ModeWordRead(m, rf);
    assert !('0' <= name[0] <= '9');
    assert |KeywordAsInt(name)| == 1;
  }

  /** A key whose sharp or flat is written as a word does not survive toString then parse. */
  lemma DisplayWordAccidental(k: Key)
    requires k.Valid() && k.key[1] != NATURAL[0] && k.accidentalFormat == FORMAT_ACCIDENTAL_FULLTEXT
    ensures ParseCode(k.ToString()).Failure? && ParseCode(k.ToString()).error.InvalidFormat?
  {
    var norm := DisplayNormal(k);
    ReadWordDisplay(k.key[0], k.key[1], k.key[2], k.relativeFormat);
    CodeLength(CandidateCode(norm));
    ParseTraditional(k.ToString(), norm);
  }

  // ---------------------------------------------------------------------
  // Concrete inputs

  /** A text of more than three bytes is never Camelot-shaped. */
  lemma LongNotCamelot(key: string)
    requires |key| > 3
    ensures !IsCamelotKey(key)
  {
  }

  lemma TableCodeAt(i: nat)
    requires i < |Conversions|
    ensures IsTableCode(Conversions[i].0)
  {
    CodesDistinct();
    GetAt(Conversions, i);
  }

  /** "F# Minor" trimmed and lower-cased is the short display of f with the full mode word. */
  lemma SharpMinorNormal()
    ensures var key := ['f'] + Lower(Accidental[SHARP[0]][FORMAT_ACCIDENTAL_SHORT]) + " "
                       + Lower(Relative[MINOR[0]][FORMAT_RELATIVE_FULLTEXT]);
      Lower(Trim("F# Minor")) == key && !IsCamelotKey(key)
  {
    var glyph, word := Accidental[SHARP[0]][FORMAT_ACCIDENTAL_SHORT], Relative[MINOR[0]][FORMAT_RELATIVE_FULLTEXT];
    DisplayNormalised('f', glyph, word);
    assert [UpperByte('f')] + glyph + " " + word == "F# Minor";
    LongNotCamelot(['f'] + Lower(glyph) + " " + Lower(word));
  }

  /** The candidate read from "f# minor" is the listed code f10. */
  lemma SharpMinorCandidate()
    ensures var key := ['f'] + Lower(Accidental[SHARP[0]][FORMAT_ACCIDENTAL_SHORT]) + " "
                       + Lower(Relative[MINOR[0]][FORMAT_RELATIVE_FULLTEXT]);
      CandidateCode(key) == "f10" && IsTableCode("f10")
  {
    ReadShortDisplay('f', SHARP[0], MINOR[0], FORMAT_ACCIDENTAL_SHORT, FORMAT_RELATIVE_FULLTEXT);
    assert ['f', SHARP[0], MINOR[0]] == Conversions[20].0;
    TableCodeAt(20);
  }

  /** "F# Minor" is f10. */
  lemma ParseSharpMinor()
    ensures ParseCode("F# Minor") == Success("f10")
  {
    var key := ['f'] + Lower(Accidental[SHARP[0]][FORMAT_ACCIDENTAL_SHORT]) + " "
               + Lower(Relative[MINOR[0]][FORMAT_RELATIVE_FULLTEXT]);
    SharpMinorNormal();
    SharpMinorCandidate();
    ParseTraditional("F# Minor", key);
  }

  /** f10 is 11A on the wheel. */
  lemma SharpMinorSlot()
    ensures Get(Conversions, "f10") == Some("11a")
  {
    CodesDistinct();
    GetAt(Conversions, 20);
  }

  /** The empty string makes one empty token and no candidate. */
  lemma ParseEmpty()
    ensures ParseCode("") == Failure(InvalidFormat("", ""))
  {
    assert Lower(Trim("")) == "";
    CodeLength("");
    ParseTraditional("", "");
  }

  /** "13a" is not Camelot notation: its number is outside 1..12. */
  lemma ThirteenNotCamelot()
    ensures !IsCamelotKey("13a")
  {
    var key := "13a";
    assert Lower(key) == key by {
      assert forall i | 0 <= i < |key| :: LowerByte(key[i]) == key[i];
    }
    assert RemoveAll(key, 'a') == "13" by {
      assert RemoveAll(key[2..], 'a') == [];
      assert RemoveAll(key[1..], 'a') == "3";
    }
    assert SplitCamelotKey(key).0 == "13";
    assert DigitsValue("13") == 13 by {
      assert "13"[..1] == "1";
    }
  }

  /** "13A" is outside the wheel, and as one token it gives no candidate. */
  lemma ParseThirteen()
    ensures ParseCode("13A") == Failure(InvalidFormat("13a", ""))
  {
    TrimUntouched("13A");
    assert Lower("13A") == "13a";
    ThirteenNotCamelot();
    ExplodeWhole("13a", ' ');
    assert CandidateCode("13a") == "";
    CodeLength("");
    ParseTraditional("13A", "13a");
  }

  /** The candidate read from "z# blah" is z1999, which is too long for the table. */
  lemma UnknownWordCandidate()
    ensures CandidateCode("z#" + " " + "blah") == "z1999" && !IsTableCode("z1999")
  {
    var key := "z#" + " " + "blah";
    ExplodeTwo("z#", ' ', "blah");
    assert Explode(key, ' ') == ["z#", "blah"];
    assert Prefix("z#", 1) == "z" && "z#"[1..2] == "#";
    RTrimUntouched("blah", ModeTrimBytes);
    assert "#"[0] == '#' && "blah"[0] == 'b';
    assert KeywordAsInt("#") == SHARP && KeywordAsInt("blah") == NOT_FOUND;
    assert "z" + SHARP + NOT_FOUND == "z1999";
    CodeLength("z1999");
  }

  /** "Z# Blah" trimmed and lower-cased: not Camelot-shaped. */
  lemma UnknownWordNormal()
    ensures Lower(Trim("Z# Blah")) == "z#" + " " + "blah" && !IsCamelotKey("z#" + " " + "blah")
  {
    TrimUntouched("Z# Blah");
    assert Lower("Z# Blah") == "z# blah";
    assert "z#" + " " + "blah" == "z# blah";
    LongNotCamelot("z# blah");
  }

  /** "Z# Blah": the pitch is not checked and the mode word is unknown, so the candidate is z1999. */
  lemma ParseUnknownWord()
    ensures ParseCode("Z# Blah") == Failure(InvalidFormat("z# blah", "z1999"))
  {
    UnknownWordNormal();
    UnknownWordCandidate();
    assert "z#" + " " + "blah" == "z# blah";
    ParseTraditional("Z# Blah", "z#" + " " + "blah");
  }

  /** A position below 10 with a leading zero still reads as that position. */
  lemma ZeroPaddedDigits(n: nat)
    requires 1 <= n <= 9
    ensures var digits := ['0'] + PositionText(n);
      |digits| == 2 && IsDigits(digits) && DigitsValue(digits) == n
  {
    var digits := ['0'] + PositionText(n);
    assert digits[..1] == ['0'] && digits[1] == PositionText(n)[0];
  }

  /** Such a key has no capitals and no blanks. */
  lemma ZeroPaddedNormal(n: nat, letter: char)
    requires 1 <= n <= 9 && (letter == 'a' || letter == 'b')
    ensures var key := ['0'] + CamelotName(n, letter); Trim(key) == key && Lower(key) == key
  {
    var key := ['0'] + CamelotName(n, letter);
    assert key == ['0', PositionText(n)[0], letter];
    TrimUntouched(key);
    LowerUntouched(key);
  }

  /** Its numeric part is the padded position. */
  lemma ZeroPaddedSplit(n: nat, letter: char)
    requires 1 <= n <= 9 && (letter == 'a' || letter == 'b')
    ensures var key := ['0'] + CamelotName(n, letter);
      |key| == 3 && SplitCamelotKey(key) == (['0'] + PositionText(n), [letter])
  {
    var key := ['0'] + CamelotName(n, letter);
    var digits := ['0'] + PositionText(n);
    ZeroPaddedDigits(n);
    assert key == digits + [letter];
    assert letter !in digits;
  }

  /** A position below 10 written with a leading zero ("01a") is Camelot-shaped. */
  lemma ZeroPaddedShape(n: nat, letter: char)
    requires 1 <= n <= 9 && (letter == 'a' || letter == 'b')
    ensures var key := ['0'] + CamelotName(n, letter);
      Lower(Trim(key)) == key && IsCamelotKey(key)
  {
    ZeroPaddedNormal(n, letter);
    ZeroPaddedSplit(n, letter);
    ZeroPaddedDigits(n);
  }

  /** ... but it is not written the way the table writes positions. */
  lemma ZeroPaddedNotCanonical(n: nat, letter: char)
    requires 1 <= n <= 9 && (letter == 'a' || letter == 'b')
    ensures !CanonicalCamelot(['0'] + CamelotName(n, letter))
  {
    ZeroPaddedSplit(n, letter);
    ZeroPaddedDigits(n);
  }

  /** A zero-padded position is not listed. */
  lemma ZeroPaddedUnlisted(n: nat, letter: char)
    requires 1 <= n <= 9 && (letter == 'a' || letter == 'b')
    ensures var key := ['0'] + CamelotName(n, letter);
      Lower(Trim(key)) == key && IsCamelotKey(key) && Search(Conversions, key).None?
  {
    var key := ['0'] + CamelotName(n, letter);
    ZeroPaddedShape(n, letter);
    ZeroPaddedNotCanonical(n, letter);
    CamelotListed(key);
  }

  /**
   * A zero-padded position has the Camelot shape, but the table writes positions
   * without a leading zero: parse finds no code for "01a".
   */
  lemma ParseZeroPadded(n: nat, letter: char)
    requires 1 <= n <= 9 && (letter == 'a' || letter == 'b')
    ensures var key := ['0'] + CamelotName(n, letter);
      ParseCode(key) == Failure(UnlistedCamelot(key))
  {
    var key := ['0'] + CamelotName(n, letter);
    ZeroPaddedUnlisted(n, letter);
    ParseCamelot(key, key);
  }

  /** Camelot text is read in either case and with surrounding blanks: " 8A " is a00. */
  lemma ParseCamelotUpper()
    ensures ParseCode(" 8A ") == Success("a00")
  {
    assert Trim(" 8A ") == "8A" by {
      assert " 8A "[1..] == "8A ";
      assert "8A "[..2] == "8A";
      RTrimUntouched("8A", TrimBytes);
    }
    assert Lower("8A") == "8a";
    CamelotSurface(" 8A ", 14);
  }

  // ---------------------------------------------------------------------
  // The compatibility check

  /** isCamelotMatch is symmetric. */
  lemma MatchSymmetric(a: string, b: string)
    requires Comparable(a, b)
    ensures IsCamelotMatch(a, b) == IsCamelotMatch(b, a)
  {
  }

  /**
   * On slots written with any letters: compatible exactly when the positions are
   * at most one apart on the line 1..12 and either the letters or the positions
   * agree. Letters are compared as written, so "8A" and "8a" are different letters.
   */
  lemma MatchOnWheel(n: nat, x: char, m: nat, y: char)
    requires 1 <= n <= 12 && 1 <= m <= 12 && !('0' <= x <= '9') && !('0' <= y <= '9')
    ensures Comparable(CamelotName(n, x), CamelotName(m, y))
    ensures IsCamelotMatch(CamelotName(n, x), CamelotName(m, y)) <==> -1 <= n - m <= 1 && (x == y || n == m)
  {
    var a, b := CamelotName(n, x), CamelotName(m, y);
    SlotsCompared(n, x, m, y);
    if -1 <= n - m <= 1 && (x == y || n == m) {
      assert IsCamelotMatch(a, b);
    } else {
      assert !IsCamelotMatch(a, b);
    }
  }

  /** What isCamelotMatch compares, for two slots. */
  lemma SlotsCompared(n: nat, x: char, m: nat, y: char)
    requires 1 <= n <= 12 && 1 <= m <= 12 && !('0' <= x <= '9') && !('0' <= y <= '9')
    ensures var a, b := SplitCamelotKey(CamelotName(n, x)), SplitCamelotKey(CamelotName(m, y));
      && IsDigits(a.0) && IsDigits(b.0) && DigitsValue(a.0) == n && DigitsValue(b.0) == m
      && (a.0 == b.0 <==> n == m) && (a.1 == b.1 <==> x == y)
  {
    SplitName(n, x);
    SplitName(m, y);
    PositionTextInjective(n, m);
  }

  /** The slots the examples below compare, written out. */
  lemma NameTexts()
    ensures CamelotName(1, 'A') == "1A" && CamelotName(12, 'A') == "12A" && CamelotName(10, 'A') == "10A"
    ensures CamelotName(7, 'A') == "7A" && CamelotName(8, 'A') == "8A" && CamelotName(9, 'A') == "9A"
    ensures CamelotName(8, 'B') == "8B" && CamelotName(9, 'B') == "9B" && CamelotName(9, 'a') == "9a"
  {
    assert PositionText(10) == "10" && PositionText(12) == "12";
  }

  /** No wrap-around: 1A and 12A are neighbours on the wheel, but not here. */
  lemma MatchNoWrap()
    ensures Comparable("1A", "12A")
    ensures !IsCamelotMatch("1A", "12A")
  {
    NameTexts();
    MatchOnWheel(1, 'A', 12, 'A');
  }

  /** A different letter at a different position does not match. */
  lemma MatchDiagonal()
    ensures Comparable("8A", "9B")
    ensures !IsCamelotMatch("8A", "9B")
  {
    NameTexts();
    MatchOnWheel(8, 'A', 9, 'B');
  }

  /** The next position with the same letter matches. */
  lemma MatchNext()
    ensures Comparable("8A", "9A")
    ensures IsCamelotMatch("8A", "9A")
  {
    NameTexts();
    MatchOnWheel(8, 'A', 9, 'A');
  }

  /** The previous position with the same letter matches. */
  lemma MatchPrevious()
    ensures Comparable("8A", "7A")
    ensures IsCamelotMatch("8A", "7A")
  {
    NameTexts();
    MatchOnWheel(8, 'A', 7, 'A');
  }

  /** The relative key, at the same position with the other letter, matches. */
  lemma MatchRelative()
    ensures Comparable("8A", "8B")
    ensures IsCamelotMatch("8A", "8B")
  {
    NameTexts();
    MatchOnWheel(8, 'A', 8, 'B');
  }

  lemma MatchTooFar()
    ensures Comparable("8A", "10A")
    ensures !IsCamelotMatch("8A", "10A")
  {
    NameTexts();
    MatchOnWheel(8, 'A', 10, 'A');
  }

  /** Letters are compared as written: "9a" is not the letter of "8A". */
  lemma MatchCaseSensitive()
    ensures Comparable("8A", "9a")
    ensures !IsCamelotMatch("8A", "9a")
  {
    NameTexts();
    MatchOnWheel(8, 'A', 9, 'a');
  }

  // ---------------------------------------------------------------------
  // Options

  /** The last option of a group decides its format, whatever came before. */
  lemma {:induction false} LastOptionWins(current: int, options: seq<int>, styles: set<int>, j: nat)
    requires j < |options| && options[j] in styles
    requires forall i :: j < i < |options| ==> options[i] !in styles
    ensures FormatAfter(current, options, styles) == options[j]
  {
    if j < |options| - 1 {
      LastOptionWins(current, options[..|options| - 1], styles, j);
    }
  }

  /** Options outside a group leave its format as it was. */
  lemma {:induction false} OtherOptionsKeep(current: int, options: seq<int>, styles: set<int>)
    requires forall i :: 0 <= i < |options| ==> options[i] !in styles
    ensures FormatAfter(current, options, styles) == current
  {
    if options != [] {
      OtherOptionsKeep(current, options[..|options| - 1], styles);
    }
  }
}
