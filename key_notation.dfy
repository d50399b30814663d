/**
 * The musical-key engine of src/RekordboxPlaylistFormatter/Key.php: the fixed
 * table between canonical key codes and Camelot-wheel codes, the keyword
 * vocabulary, the parser for Camelot and traditional notation, the formatter,
 * and the Camelot compatibility check.
 *
 * A canonical code is three bytes: the pitch letter, the accidental digit
 * (0 natural, 1 sharp, 2 flat) and the mode digit (0 minor, 1 major).
 */
module KeyNotation {
  import opened Outcomes
  import opened ByteStrings
  import opened PhpArrays

  /** The flat sign U+266D, as the three bytes of its UTF-8 encoding. */
  const UNICODE_FLAT_CHARACTER: string := "\U{E2}\U{99}\U{AD}"

  // The accidental and mode values, as the decimal text parse concatenates.
  const NATURAL: string := "0"
  const SHARP: string := "1"
  const FLAT: string := "2"
  const MINOR: string := "0"
  const MAJOR: string := "1"
  /** What keywordAsInt answers for a word outside its vocabulary. */
  const NOT_FOUND: string := "999"

  const FORMAT_RELATIVE_FULLTEXT: int := 0
  const FORMAT_RELATIVE_SHORT: int := 1
  const FORMAT_ACCIDENTAL_FULLTEXT: int := 3
  const FORMAT_ACCIDENTAL_SHORT: int := 4
  const FORMAT_ACCIDENTAL_UNICODE: int := 5

  const RelativeFormats: set<int> := {FORMAT_RELATIVE_FULLTEXT, FORMAT_RELATIVE_SHORT}
  const AccidentalFormats: set<int> :=
    {FORMAT_ACCIDENTAL_FULLTEXT, FORMAT_ACCIDENTAL_SHORT, FORMAT_ACCIDENTAL_UNICODE}

  /** The mode words, by mode digit and relative format. */
  const Relative: map<char, map<int, string>> := map[
    MINOR[0] := map[FORMAT_RELATIVE_FULLTEXT := "Minor", FORMAT_RELATIVE_SHORT := "Min."],
    MAJOR[0] := map[FORMAT_RELATIVE_FULLTEXT := "Major", FORMAT_RELATIVE_SHORT := "Maj."]
  ]

  /** The accidental glyphs, by accidental digit and accidental format. */
  const Accidental: map<char, map<int, string>> := map[
    NATURAL[0] := map[FORMAT_ACCIDENTAL_FULLTEXT := "", FORMAT_ACCIDENTAL_SHORT := "",
                      FORMAT_ACCIDENTAL_UNICODE := ""],
    SHARP[0] := map[FORMAT_ACCIDENTAL_FULLTEXT := " Sharp", FORMAT_ACCIDENTAL_SHORT := "#",
                    FORMAT_ACCIDENTAL_UNICODE := "#"],
    FLAT[0] := map[FORMAT_ACCIDENTAL_FULLTEXT := " Flat", FORMAT_ACCIDENTAL_SHORT := "b",
                   FORMAT_ACCIDENTAL_UNICODE := UNICODE_FLAT_CHARACTER]
  ]

  /** The canonical code of each Camelot code, in the order of the source's table. */
  const Conversions: seq<(string, string)> := [
    ("a20", "1a"), ("b01", "1b"), ("e20", "2a"), ("f11", "2b"),
    ("b20", "3a"), ("d21", "3b"), ("f00", "4a"), ("a21", "4b"),
    ("c00", "5a"), ("e21", "5b"), ("g00", "6a"), ("b21", "6b"),
    ("d00", "7a"), ("f01", "7b"), ("a00", "8a"), ("c01", "8b"),
    ("e00", "9a"), ("g01", "9b"), ("b00", "10a"), ("d01", "10b"),
    ("f10", "11a"), ("a01", "11b"), ("d20", "12a"), ("e01", "12b")
  ]

  /** A canonical code that the table lists (array_key_exists on the table). */
  predicate IsTableCode(code: string) {
    exists i :: 0 <= i < |Conversions| && Conversions[i].0 == code
  }

  /** Pitch letter, accidental digit and mode digit. */
  predicate CodeShaped(code: string) {
    |code| == 3 && 'a' <= code[0] <= 'g' && code[1] in Accidental && code[2] in Relative
  }

  /** The bytes rtrim strips from the mode word. */
  const ModeTrimBytes: string := " \t."

  /** Why parse throws InvalidFormatException, or what it would build instead. */
  datatype ParseError =
    /** No canonical code could be derived: the normalised input and the candidate built from it. */
    | InvalidFormat(input: string, candidate: string)
    /** The input has the Camelot shape but is not a table value (as "01a"): array_search answers
        false here and the source goes on to build a Key without a code. */
    | UnlistedCamelot(input: string)

  /**
   * keywordAsInt: numeric text comes back unchanged, a vocabulary word gives the
   * accidental or mode value, anything else 999. The result is always numeric.
   */
  function KeywordAsInt(s: string): (r: string)
    ensures IsDigits(r)
    ensures IsDigits(s) ==> r == s
    ensures !IsDigits(s) ==> r == NATURAL || r == SHARP || r == FLAT || r == NOT_FOUND
  {
    if IsDigits(s) then s
    else if s == "b" || s == UNICODE_FLAT_CHARACTER || s == "flat" then FLAT
    else if s == "#" || s == "sharp" then SHARP
    else if s == "major" || s == "maj." || s == "maj" then MAJOR
    else if s == "minor" || s == "min." || s == "min" then MINOR
    else NOT_FOUND
  }

  /**
   * splitCamelotKey: the alpha part is the last byte; the numeric part is the
   * key with every occurrence of that byte removed.
   */
  function SplitCamelotKey(key: string): (r: (string, string))
    ensures key == [] ==> r == ("", "")
    ensures key != [] ==> r.1 == [key[|key| - 1]] && key[|key| - 1] !in r.0 && |r.0| < |key|
    ensures key != [] && key[|key| - 1] !in key[..|key| - 1] ==> r.0 + r.1 == key
  {
    if key == [] then ("", "")
    else
      var alpha := key[|key| - 1];
      RemoveLast(key);
      (RemoveAll(key, alpha), [alpha])
  }

  /** Removing every copy of the last byte removes at least that byte, and only it when it occurs once. */
  lemma RemoveLast(key: string)
    requires key != []
    ensures |RemoveAll(key, key[|key| - 1])| < |key| && key[|key| - 1] !in RemoveAll(key, key[|key| - 1])
    ensures key[|key| - 1] !in key[..|key| - 1] ==> RemoveAll(key, key[|key| - 1]) == key[..|key| - 1]
  {
    var alpha := key[|key| - 1];
    assert key == key[..|key| - 1] + [alpha];
    RemoveAllAppend(key[..|key| - 1], [alpha], alpha);
    RemoveAllShrinks(key[..|key| - 1], alpha);
    if alpha !in key[..|key| - 1] {
      RemoveAllAbsent(key[..|key| - 1], alpha);
    }
  }

  /** The numeric part reads as a number between 1 and 12. */
  predicate NumericInRange(num: string) {
    IsDigits(num) && 1 <= DigitsValue(num) <= 12
  }

  /** isCamelotKey: 2 or 3 bytes, numeric part 1..12, alpha part `a` or `b` after lower-casing. */
  function IsCamelotKey(key: string): (r: bool)
    ensures (|key| < 2 || |key| > 3) ==> !r
    ensures !NumericInRange(SplitCamelotKey(Lower(key)).0) ==> !r
    ensures SplitCamelotKey(Lower(key)).1 != "a" && SplitCamelotKey(Lower(key)).1 != "b" ==> !r
    ensures r ==> |Lower(key)| == |key| && (Lower(key)[|key| - 1] == 'a' || Lower(key)[|key| - 1] == 'b')
  {
    if |key| < 2 || |key| > 3 then false
    else
      var camelotKey := SplitCamelotKey(Lower(key));
      if !NumericInRange(camelotKey.0) then false
      else camelotKey.1 == "a" || camelotKey.1 == "b"
  }

  /** Both keys have a numeric part, so that their positions can be subtracted. */
  predicate Comparable(a: string, b: string) {
    IsDigits(SplitCamelotKey(a).0) && IsDigits(SplitCamelotKey(b).0)
  }

  /**
   * isCamelotMatch: positions at most one apart on the linear scale 1..12, and
   * the same letter or the same numeric text. Both numeric parts must be
   * numbers: PHP's subtraction is undefined on anything else.
   */
  function IsCamelotMatch(a: string, b: string): (r: bool)
    requires Comparable(a, b)
    ensures r ==> -1 <= DigitsValue(SplitCamelotKey(a).0) - DigitsValue(SplitCamelotKey(b).0) <= 1
    ensures r ==> SplitCamelotKey(a).1 == SplitCamelotKey(b).1 || SplitCamelotKey(a).0 == SplitCamelotKey(b).0
  {
    var splitA := SplitCamelotKey(a);
    var splitB := SplitCamelotKey(b);
    var difference := DigitsValue(splitA.0) - DigitsValue(splitB.0);
    if difference > 1 || difference < -1 then false
    else if splitA.1 != splitB.1 && splitA.0 != splitB.0 then false
    else true
  }

  /** The candidate code the traditional-notation path builds from a normalised key. */
  function CandidateCode(key: string): string {
    var stringSegments := Explode(key, ' ');
    if |stringSegments| == 2 then
      // "f# minor": pitch byte, accidental byte only when the token is exactly two bytes
      var pitch := Prefix(stringSegments[0], 1);
      var accidental := if |stringSegments[0]| == 2 then KeywordAsInt(stringSegments[0][1..2]) else NATURAL;
      var relative := KeywordAsInt(RTrim(stringSegments[1], ModeTrimBytes));
      pitch + accidental + relative
    else if |stringSegments| == 3 then
      // "f sharp minor": the mode word is appended as it stands
      stringSegments[0] + KeywordAsInt(stringSegments[1]) + RTrim(stringSegments[2], ModeTrimBytes)
    else
      // any other token count leaves pitch, accidental and relative undefined: they read as ""
      ""
  }

  /**
   * The code parse gives the new Key, or the error it throws: the input is
   * trimmed and lower-cased, then read as Camelot notation if it has that
   * shape, and as traditional notation otherwise.
   */
  function ParseCode(raw: string): (r: Result<string, ParseError>)
    ensures r.Success? ==> IsTableCode(r.value)
    ensures r.Failure? ==> r.error.input == Lower(Trim(raw))
    ensures r.Failure? && r.error.InvalidFormat? ==> !IsTableCode(r.error.candidate)
    ensures r.Failure? && r.error.UnlistedCamelot? ==> IsCamelotKey(Lower(Trim(raw)))
  {
    var key := Lower(Trim(raw));
    if IsCamelotKey(key) then
      match Search(Conversions, key)
      case Some(code) => Success(code)
      case None => Failure(UnlistedCamelot(key))
    else
      var parsedKey := CandidateCode(key);
      if IsTableCode(parsedKey) then Success(parsedKey)
      else Failure(InvalidFormat(key, parsedKey))
  }

  /** The format an option list leaves in force, starting from `current`: the last option among `styles`. */
  function FormatAfter(current: int, options: seq<int>, styles: set<int>): (r: int)
    ensures r == current || r in options
    ensures current in styles ==> r in styles
  {
    if options == [] then current
    else
      var option := options[|options| - 1];
      if option in styles then option else FormatAfter(current, options[..|options| - 1], styles)
  }

  class Key {
    /** The canonical code. */
    var key: string
    var relativeFormat: int
    var accidentalFormat: int

    ghost predicate Valid()
      reads this
    {
      && IsTableCode(key) && CodeShaped(key)
      && relativeFormat in RelativeFormats && accidentalFormat in AccidentalFormats
    }

    /**
     * The private constructor. The source applies the options before it stores
     * the code; setOptions never reads the code, so storing it first, which keeps
     * the object valid throughout, changes nothing.
     */
    constructor (key: string, options: seq<int>)
      requires IsTableCode(key)
      ensures Valid() && this.key == key
      ensures relativeFormat == FormatAfter(FORMAT_RELATIVE_FULLTEXT, options, RelativeFormats)
      ensures accidentalFormat == FormatAfter(FORMAT_ACCIDENTAL_UNICODE, options, AccidentalFormats)
    {
      this.key := key;
      relativeFormat := FORMAT_RELATIVE_FULLTEXT;
      accidentalFormat := FORMAT_ACCIDENTAL_UNICODE;
      new;
      TableCodeShape(key);
      if options != [] {
        SetOptions(options);
      }
    }

    /** setOptions: each known option overwrites its format; unknown values are ignored. */
    method SetOptions(options: seq<int>)
      requires Valid()
      modifies this
      ensures Valid() && key == old(key)
      ensures relativeFormat == FormatAfter(old(relativeFormat), options, RelativeFormats)
      ensures accidentalFormat == FormatAfter(old(accidentalFormat), options, AccidentalFormats)
    {
      for i := 0 to |options|
        invariant key == old(key)
        invariant relativeFormat == FormatAfter(old(relativeFormat), options[..i], RelativeFormats)
        invariant accidentalFormat == FormatAfter(old(accidentalFormat), options[..i], AccidentalFormats)
      {
        assert options[..i + 1][..i] == options[..i];
        var option := options[i];
        if option == FORMAT_RELATIVE_FULLTEXT {
          relativeFormat := FORMAT_RELATIVE_FULLTEXT;
        } else if option == FORMAT_RELATIVE_SHORT {
          relativeFormat := FORMAT_RELATIVE_SHORT;
        } else if option == FORMAT_ACCIDENTAL_FULLTEXT {
          accidentalFormat := FORMAT_ACCIDENTAL_FULLTEXT;
        } else if option == FORMAT_ACCIDENTAL_SHORT {
          accidentalFormat := FORMAT_ACCIDENTAL_SHORT;
        } else if option == FORMAT_ACCIDENTAL_UNICODE {
          accidentalFormat := FORMAT_ACCIDENTAL_UNICODE;
        }
      }
      assert options[..|options|] == options;
    }

    /** toCamelot: the table value of the code, upper-cased. */
    function ToCamelot(): (r: string)
      reads this
      requires Valid()
      ensures 2 <= |r| <= 3
      ensures ModeLetter(key, r, 'A', 'B')
    {
      TableCodeShape(key);
      var camelot := Get(Conversions, key).value;
      UpperShaped(key, camelot);
      Upper(camelot)
    }

    /** toString: upper-case pitch, accidental glyph, a space, the mode word. */
    function ToString(): (r: string)
      reads this
      requires Valid()
      ensures r == [UpperByte(key[0])] + Accidental[key[1]][accidentalFormat] + " "
                   + Relative[key[2]][relativeFormat]
    {
      var pitch := Upper(Prefix(key, 1));
      assert pitch == [UpperByte(key[0])];
      var accidental := key[1];
      var relative := key[2];
      pitch + Accidental[accidental][accidentalFormat] + " " + Relative[relative][relativeFormat]
    }

    /** parse: a new Key with the parsed code, or the error parse throws. */
    static method Parse(s: string, options: seq<int>) returns (r: Result<Key, ParseError>)
      ensures ParseCode(s).Failure? ==> r == Failure(ParseCode(s).error)
      ensures ParseCode(s).Success? ==> r.Success? && fresh(r.value) && r.value.Valid()
      ensures ParseCode(s).Success? ==> r.value.key == ParseCode(s).value
      ensures ParseCode(s).Success? ==>
        r.value.relativeFormat == FormatAfter(FORMAT_RELATIVE_FULLTEXT, options, RelativeFormats)
      ensures ParseCode(s).Success? ==>
        r.value.accidentalFormat == FormatAfter(FORMAT_ACCIDENTAL_UNICODE, options, AccidentalFormats)
    {
      var code := ParseCode(s);
      if code.Success? {
        var k := new Key(code.value, options);
        r := Success(k);
      } else {
        r := Failure(code.error);
      }
    }
  }

  /** A three-byte code of pitch letter, accidental digit and mode digit, with a
      two- or three-byte Camelot value whose letter follows the mode. */
  predicate EntryShaped(code: string, camelot: string) {
    && CodeShaped(code)
    && 2 <= |camelot| <= 3 && camelot[|camelot| - 1] == (if code[2] == MINOR[0] then 'a' else 'b')
  }

  predicate ModeLetter(code: string, camelot: string, minor: char, major: char) {
    |code| == 3 && 2 <= |camelot| <= 3 && camelot[|camelot| - 1] == (if code[2] == MINOR[0] then minor else major)
  }

  lemma UpperShaped(code: string, camelot: string)
    requires EntryShaped(code, camelot)
    ensures ModeLetter(code, Upper(camelot), 'A', 'B')
  {
  }

  /** Every table entry has that shape. */
  lemma EntryShape(i: nat)
    requires i < |Conversions|
    ensures EntryShaped(Conversions[i].0, Conversions[i].1)
  {
  }

  /** The position of a code in the table, read off its three bytes. */
  function CodeSlot(c: string): int
    requires |c| == 3
  {
    var p, a, m := c[0], c[1], c[2];
    if m == '0' then
      if a == '0' then
        (if p == 'f' then 6 else if p == 'c' then 8 else if p == 'g' then 10 else if p == 'd' then 12
         else if p == 'a' then 14 else if p == 'e' then 16 else if p == 'b' then 18 else -1)
      else if a == '1' then (if p == 'f' then 20 else -1)
      else (if p == 'a' then 0 else if p == 'e' then 2 else if p == 'b' then 4 else if p == 'd' then 22 else -1)
    else
      if a == '0' then
        (if p == 'b' then 1 else if p == 'f' then 13 else if p == 'c' then 15 else if p == 'g' then 17
         else if p == 'd' then 19 else if p == 'a' then 21 else if p == 'e' then 23 else -1)
      else if a == '1' then (if p == 'f' then 3 else -1)
      else (if p == 'd' then 5 else if p == 'a' then 7 else if p == 'e' then 9 else if p == 'b' then 11 else -1)
  }

  lemma SlotOfCode(i: nat)
    requires i < |Conversions|
    ensures |Conversions[i].0| == 3 && CodeSlot(Conversions[i].0) == i
  {
  }

  lemma CodesDistinct()
    ensures DistinctKeys(Conversions)
  {
    forall i, j | 0 <= i < j < |Conversions|
      ensures Conversions[i].0 != Conversions[j].0
    {
      SlotOfCode(i);
      SlotOfCode(j);
    }
  }

  /** No Camelot value is listed twice. */
  lemma ValuesDistinct()
    ensures forall i, j :: 0 <= i < j < |Conversions| ==> Conversions[i].1 != Conversions[j].1
  {
  }

  /** The table is a bijection between its codes and its values. */
  lemma TableDistinct()
    ensures DistinctKeys(Conversions)
    ensures forall i, j :: 0 <= i < j < |Conversions| ==> Conversions[i].1 != Conversions[j].1
  {
    CodesDistinct();
    ValuesDistinct();
  }

  /** Where a listed code stands in the table. */
  lemma TableIndex(code: string) returns (i: nat)
    requires IsTableCode(code)
    ensures i < |Conversions| && Conversions[i].0 == code && Get(Conversions, code) == Some(Conversions[i].1)
  {
    i :| 0 <= i < |Conversions| && Conversions[i].0 == code;
    CodesDistinct();
    GetAt(Conversions, i);
  }

  /** The shape of a listed code and of its Camelot value. */
  lemma TableCodeShape(code: string)
    requires IsTableCode(code)
    ensures EntryShaped(code, Get(Conversions, code).value)
  {
    var i := TableIndex(code);
    EntryShape(i);
  }
}
