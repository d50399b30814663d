# rekordbox-playlist-formatter, modelled in Dafny

This project models the core of the PHP library rekordbox-playlist-formatter.
The library reads the tab-separated playlist export of Rekordbox, a DJ
application. It offers a `Playlist` built from that export and a `Key` for the
musical key of a track.

The playlist part:

- it cleans every field of invalid bytes;
- it assembles the tracklist, keyed by track number when the export has a `#` column;
- it sums the track times into hours, minutes and seconds (`getTime`);
- it tallies the genres, largest count first (`getGenres`);
- it projects the tracklist onto chosen columns (`getTracklist`, `limitRecordset`).

The key part:

- it keeps the table between canonical key codes (pitch letter, accidental digit, mode digit, as `f10`) and the 24 slots of the Camelot wheel (`11a`);
- it parses Camelot and traditional notation ("F# Minor", "Ab Maj.");
- it writes a key back in either notation;
- it decides whether two Camelot keys are compatible for mixing.

Modules, in dependency order:

- `Outcomes`: Option and Result.
- `ByteStrings`: the PHP string built-ins the core calls, on byte strings:
  `strtolower`, `strtoupper`, `trim`, `rtrim`, `explode`, `str_replace`, and numeric strings.
- `PhpArrays`: PHP's ordered arrays as sequences of key/value pairs (lookup, assignment, `array_search`).
- `KeyNotation`: the tables and operations of `Key`, with `class Key` for its mutable fields.
- `KeyProperties`: what the key operations promise: table properties, round trips, the keyword
  vocabulary, the compatibility check, and concrete inputs.
- `KeyFindings`: three defects of `Key`, each as written and corrected.
- `Playlists`: the specification functions of `Playlist` and `class Playlist`, whose constructor and
  methods run the source's loops and are proved equal to those functions.
- `PlaylistProperties`: what the playlist functions promise.
- `PlaylistFindings`: the carry defects of `getTime`, as written and corrected.

Strings are sequences of bytes (each `char` stands for one byte). The flat sign
is the three bytes of its UTF-8 encoding. PHP integers are modelled by
unbounded naturals.

## Model

| member | source | states |
|---|---|---|
| ByteStrings.Explode | src/RekordboxPlaylistFormatter/Key.php:111 | `explode` always gives at least one piece |
| ByteStrings.ExplodeCons | src/RekordboxPlaylistFormatter/Playlist.php:105 | a delimiter-free head is split off as the first piece |
| ByteStrings.ExplodeTwo | src/RekordboxPlaylistFormatter/Key.php:111 | two delimiter-free parts joined by the delimiter explode into those two pieces |
| ByteStrings.ExplodeThree | src/RekordboxPlaylistFormatter/Key.php:111 | the same for three parts |
| ByteStrings.ExplodeWhole | src/RekordboxPlaylistFormatter/Key.php:111 | a text without the delimiter is one piece |
| ByteStrings.LowerAppend | src/RekordboxPlaylistFormatter/Key.php:103 | lower-casing distributes over concatenation |
| ByteStrings.LowerIdempotent | src/RekordboxPlaylistFormatter/Key.php:248 | lower-casing twice is lower-casing once, so isCamelotKey's second strtolower changes nothing |
| ByteStrings.LowerOfUpper | src/RekordboxPlaylistFormatter/Key.php:188 | lower-casing forgets an upper-casing |
| ByteStrings.RemoveAllShrinks | src/RekordboxPlaylistFormatter/Key.php:234 | str_replace with '' never lengthens the text and leaves no copy of the byte |
| ByteStrings.RemoveAllAppend | src/RekordboxPlaylistFormatter/Playlist.php:154 | removing a byte distributes over concatenation |
| ByteStrings.Lower | src/RekordboxPlaylistFormatter/Key.php:103 | strtolower; specified by ByteStrings.LowerAppend, ByteStrings.LowerIdempotent and ByteStrings.LowerOfUpper |
| ByteStrings.Upper | src/RekordboxPlaylistFormatter/Key.php:188 | strtoupper; specified by ByteStrings.LowerOfUpper and KeyNotation.UpperShaped |
| ByteStrings.RTrim | src/RekordboxPlaylistFormatter/Key.php:120 | rtrim with a character list; specified by ByteStrings.RTrimUntouched and ByteStrings.RTrimOne |
| ByteStrings.Trim | src/RekordboxPlaylistFormatter/Key.php:103 | trim with the default character list; specified by ByteStrings.TrimUntouched |
| ByteStrings.RemoveAll | src/RekordboxPlaylistFormatter/Key.php:234 | str_replace of one byte by ''; specified by ByteStrings.RemoveAllShrinks, ByteStrings.RemoveAllAppend and ByteStrings.RemoveAllAbsent |
| ByteStrings.IsDigits | src/RekordboxPlaylistFormatter/Key.php:156 | is_numeric, read as one or more ASCII digits; used by the ensures of KeyNotation.KeywordAsInt |
| ByteStrings.DigitsValue | src/RekordboxPlaylistFormatter/Key.php:252 | the number a digit string stands for; specified by KeyProperties.PositionText and PlaylistProperties.TimeFieldsShort |
| ByteStrings.RTrimUntouched | src/RekordboxPlaylistFormatter/Key.php:120 | rtrim leaves a text that does not end in a listed byte unchanged |
| ByteStrings.RTrimOne | src/RekordboxPlaylistFormatter/Key.php:120 | rtrim removes exactly one trailing listed byte from a text that ends with it once |
| ByteStrings.TrimUntouched | src/RekordboxPlaylistFormatter/Key.php:103 | trim leaves a text that neither starts nor ends with a trimmed byte unchanged |
| ByteStrings.RemoveAllAbsent | src/RekordboxPlaylistFormatter/Key.php:234 | str_replace of an absent byte changes nothing |
| PhpArrays.Get | src/RekordboxPlaylistFormatter/Playlist.php:155 | a key is set exactly when some pair has it, and the value read is that pair's |
| PhpArrays.Search | src/RekordboxPlaylistFormatter/Key.php:107 | array_search fails exactly when no pair holds the value, else gives the key of the first pair holding it |
| PhpArrays.Put | src/RekordboxPlaylistFormatter/Playlist.php:49 | `$a[$k] = $v` keeps the length or appends one pair; specified by PhpArrays.PutGet, PhpArrays.PutOther, PhpArrays.PutOrder and PhpArrays.PutDistinct |
| PhpArrays.PutGet | src/RekordboxPlaylistFormatter/Playlist.php:157 | after `$a[$k] = $v` the key reads `v` |
| PhpArrays.PutOther | src/RekordboxPlaylistFormatter/Playlist.php:157 | every other key keeps its value or stays unset |
| PhpArrays.PutOrder | src/RekordboxPlaylistFormatter/Playlist.php:49 | an existing key is overwritten where it stands, a new key is appended at the end |
| PhpArrays.PutDistinct | src/RekordboxPlaylistFormatter/Playlist.php:49 | assignment never repeats a key |
| PhpArrays.GetAppend | src/RekordboxPlaylistFormatter/Playlist.php:228 | a lookup in two arrays laid end to end answers from the first one that has the key |
| KeyNotation.KeywordAsInt | src/RekordboxPlaylistFormatter/Key.php:153-184 | numeric text comes back unchanged; any other text gives the flat, sharp/major, minor or not-found value, so the result is always numeric |
| KeyNotation.SplitCamelotKey | src/RekordboxPlaylistFormatter/Key.php:231-236 | the alpha part is the last byte; the numeric part is shorter and has no copy of it; when the last byte occurs once the two parts rebuild the key |
| KeyNotation.RemoveLast | src/RekordboxPlaylistFormatter/Key.php:233-234 | str_replace of the last byte removes it and, when it occurs once, only it |
| KeyNotation.IsCamelotKey | src/RekordboxPlaylistFormatter/Key.php:238-262 | false for lengths other than 2 or 3, for a numeric part outside 1..12 and for an alpha part other than a or b; true only for keys ending in a or b after lower-casing |
| KeyNotation.IsCamelotMatch | src/RekordboxPlaylistFormatter/Key.php:137-151 | a match has positions at most one apart and the same letter or the same numeric text |
| KeyNotation.CandidateCode | src/RekordboxPlaylistFormatter/Key.php:110-129 | the candidate built from the two- or three-token reading; specified by KeyProperties.ReadTwoTokens, KeyProperties.ReadThreeTokens, KeyProperties.ParseTraditional and the concrete KeyProperties.ParseEmpty and KeyProperties.ParseUnknownWord |
| KeyNotation.ParseCode | src/RekordboxPlaylistFormatter/Key.php:100-135 | a success is a code of the table; a failure carries the normalised input; an InvalidFormat candidate is not in the table; an unlisted result is Camelot-shaped |
| KeyNotation.FormatAfter | src/RekordboxPlaylistFormatter/Key.php:208-229 | the format left in force is the current one or one of the options, and stays within its group |
| KeyNotation.Key.constructor | src/RekordboxPlaylistFormatter/Key.php:79-92 | the key holds the code, and both formats are the defaults updated by the options |
| KeyNotation.Key.SetOptions | src/RekordboxPlaylistFormatter/Key.php:208-229 | each format becomes the last option of its group, the code is untouched |
| KeyNotation.Key.ToCamelot | src/RekordboxPlaylistFormatter/Key.php:186-189 | the upper-cased table value: 2 or 3 bytes, ending in A for minor and B for major |
| KeyNotation.Key.ToString | src/RekordboxPlaylistFormatter/Key.php:191-201 | the display of pitch, accidental glyph and mode word; its contract spells the format out, and what it means for parse is stated by KeyProperties.DisplayRoundTrip (short and natural displays read back) and KeyProperties.DisplayFlatSign (the flat sign reads back as natural) |
| KeyNotation.Key.Parse | src/RekordboxPlaylistFormatter/Key.php:100-135 | the error ParseCode gives, or a fresh valid Key holding ParseCode's code with the formats set by the options |
| KeyNotation.UpperShaped | src/RekordboxPlaylistFormatter/Key.php:188 | upper-casing a table value keeps its mode letter, as A or B |
| KeyNotation.EntryShape | src/RekordboxPlaylistFormatter/Key.php:52-77 | every table entry is a code of pitch, accidental and mode whose Camelot value ends in a for minor, b for major |
| KeyNotation.SlotOfCode | src/RekordboxPlaylistFormatter/Key.php:52-77 | each code's position in the table is determined by its three bytes |
| KeyNotation.CodesDistinct | src/RekordboxPlaylistFormatter/Key.php:52-77 | no code is listed twice |
| KeyNotation.ValuesDistinct | src/RekordboxPlaylistFormatter/Key.php:52-77 | no Camelot value is listed twice |
| KeyNotation.TableDistinct | src/RekordboxPlaylistFormatter/Key.php:52-77 | the table is a bijection between codes and values |
| KeyNotation.TableIndex | src/RekordboxPlaylistFormatter/Key.php:130 | a listed code stands at some index and reads its value there |
| KeyNotation.TableCodeShape | src/RekordboxPlaylistFormatter/Key.php:188-200 | a listed code and its value have the entry shape |
| KeyProperties.PositionText | src/RekordboxPlaylistFormatter/Key.php:252 | the text of a wheel position is numeric with that value |
| KeyProperties.PositionTextInjective | src/RekordboxPlaylistFormatter/Key.php:146 | two positions have the same text exactly when they are equal |
| KeyProperties.TableSlots | src/RekordboxPlaylistFormatter/Key.php:52-77 | the table lists 1a, 1b, 2a, 2b, ... 12a, 12b in order |
| KeyProperties.SlotAt | src/RekordboxPlaylistFormatter/Key.php:52-77 | the slot at each table index |
| KeyProperties.SlotIndex | src/RekordboxPlaylistFormatter/Key.php:52-77 | every slot of the wheel is listed |
| KeyProperties.CodeLength | src/RekordboxPlaylistFormatter/Key.php:130 | a candidate that is not three bytes is never listed |
| KeyProperties.SplitName | src/RekordboxPlaylistFormatter/Key.php:231-236 | a slot splits into its position's text and its letter |
| KeyProperties.NameIsCamelot | src/RekordboxPlaylistFormatter/Key.php:238-262 | every slot written in lower case is Camelot notation |
| KeyProperties.ValueIndex | src/RekordboxPlaylistFormatter/Key.php:107 | a listed value stands at an index, and array_search gives the code at that index |
| KeyProperties.ListedCanonical | src/RekordboxPlaylistFormatter/Key.php:52-77 | every listed value is written without a leading zero and with its letter once |
| KeyProperties.CanonicalListed | src/RekordboxPlaylistFormatter/Key.php:52-77 | every canonically written slot ending in a or b is listed |
| KeyProperties.CamelotListed | src/RekordboxPlaylistFormatter/Key.php:106-107 | a lower-case Camelot-shaped key is listed exactly when it is written canonically |
| KeyProperties.CamelotSurface | src/RekordboxPlaylistFormatter/Key.php:103-107 | any spelling that trims and lower-cases to a table value parses to its code |
| KeyProperties.ValueIsCamelot | src/RekordboxPlaylistFormatter/Key.php:238-262 | every table value is Camelot notation |
| KeyProperties.ParseCamelot | src/RekordboxPlaylistFormatter/Key.php:103-107 | on Camelot-shaped input, parse gives the code array_search finds, or the unlisted error |
| KeyProperties.UpperValueNormalises | src/RekordboxPlaylistFormatter/Key.php:103 | the upper-cased value trims and lower-cases back to the value |
| KeyProperties.CamelotRoundTrip | src/RekordboxPlaylistFormatter/Key.php:186-189 | parse(toCamelot()) gives back the key's code, for every key |
| KeyProperties.KeywordFlat | src/RekordboxPlaylistFormatter/Key.php:161-164 | the flat value comes from b, the flat sign, flat and "2", and from nothing else |
| KeyProperties.KeywordSharpOrMajor | src/RekordboxPlaylistFormatter/Key.php:166-173 | sharp and major share the value 1, which comes from exactly the sharp words, the major words and "1" |
| KeyProperties.KeywordMinor | src/RekordboxPlaylistFormatter/Key.php:175-178 | the minor value comes from exactly the minor words and "0" |
| KeyProperties.KeywordNotFound | src/RekordboxPlaylistFormatter/Key.php:180-181 | 999 comes from "999" or from a non-numeric word outside the vocabulary, and from nothing else |
| KeyProperties.ModeWordRead | src/RekordboxPlaylistFormatter/Key.php:120 | every mode word, lower-cased and rtrimmed, is read back as its mode digit |
| KeyProperties.DisplayNormalised | src/RekordboxPlaylistFormatter/Key.php:103 | what parse makes of a display, once trimmed and lower-cased |
| KeyProperties.ReadTwoTokens | src/RekordboxPlaylistFormatter/Key.php:113-121 | with two tokens, the accidental is read only from a two-byte first token |
| KeyProperties.ReadThreeTokens | src/RekordboxPlaylistFormatter/Key.php:123-127 | with three tokens the accidental word is resolved and the mode word appended as it stands |
| KeyProperties.GlyphLowered | src/RekordboxPlaylistFormatter/Key.php:33-49 | the glyphs in lower case: the word forms keep their leading space |
| KeyProperties.NaturalTwin | src/RekordboxPlaylistFormatter/Key.php:52-77 | every listed flat key has a listed natural twin with the same pitch and mode |
| KeyProperties.ParseTraditional | src/RekordboxPlaylistFormatter/Key.php:110-134 | on input not Camelot-shaped, parse succeeds with the candidate exactly when it is listed, else throws with it |
| KeyProperties.DisplayNormal | src/RekordboxPlaylistFormatter/Key.php:191-201 | a display, normalised, is never Camelot-shaped |
| KeyProperties.ReadShortDisplay | src/RekordboxPlaylistFormatter/Key.php:113-121 | a display with a one-byte accidental, or none, is read as its own code |
| KeyProperties.DisplayRoundTrip | src/RekordboxPlaylistFormatter/Key.php:191-201 | parse(toString()) gives the same code when the accidental is written as one byte or not at all |
| KeyProperties.DisplayFlatSign | src/RekordboxPlaylistFormatter/Key.php:117-118 | with the flat sign, the default, parse(toString()) gives the natural key instead |
| KeyProperties.ReadWordDisplay | src/RekordboxPlaylistFormatter/Key.php:123-129 | an accidental written as a word gives a candidate longer than any code |
| KeyProperties.DisplayWordAccidental | src/RekordboxPlaylistFormatter/Key.php:123-134 | a display whose sharp or flat is a word never parses back: parse throws |
| KeyProperties.LongNotCamelot | src/RekordboxPlaylistFormatter/Key.php:243-245 | more than three bytes is never Camelot-shaped |
| KeyProperties.ParseSharpMinor | src/RekordboxPlaylistFormatter/Key.php:114 | "F# Minor" parses to f10 |
| KeyProperties.SharpMinorSlot | src/RekordboxPlaylistFormatter/Key.php:52-77 | f10 is 11a |
| KeyProperties.ParseEmpty | src/RekordboxPlaylistFormatter/Key.php:129-134 | the empty text throws, with an empty candidate |
| KeyProperties.ThirteenNotCamelot | src/RekordboxPlaylistFormatter/Key.php:252-254 | "13a" is outside the wheel |
| KeyProperties.ParseThirteen | src/RekordboxPlaylistFormatter/Key.php:129-134 | "13A" throws, with an empty candidate |
| KeyProperties.ParseUnknownWord | src/RekordboxPlaylistFormatter/Key.php:113-134 | "Z# Blah" throws with candidate z1999: the pitch is not checked, the unknown word gives 999 |
| KeyProperties.ZeroPaddedShape | src/RekordboxPlaylistFormatter/Key.php:238-262 | "01a" to "09b" are Camelot-shaped |
| KeyProperties.ZeroPaddedUnlisted | src/RekordboxPlaylistFormatter/Key.php:107 | but they are not listed |
| KeyProperties.ParseZeroPadded | src/RekordboxPlaylistFormatter/Key.php:106-107 | parse of a zero-padded slot gives the unlisted outcome |
| KeyProperties.ParseCamelotUpper | src/RekordboxPlaylistFormatter/Key.php:103-107 | " 8A " parses to a00 |
| KeyProperties.MatchSymmetric | src/RekordboxPlaylistFormatter/Key.php:137-151 | isCamelotMatch is symmetric |
| KeyProperties.MatchOnWheel | src/RekordboxPlaylistFormatter/Key.php:137-151 | two slots match exactly when their positions differ by at most one and they share the letter or the position |
| KeyProperties.MatchNoWrap | src/RekordboxPlaylistFormatter/Key.php:142 | 1A and 12A do not match |
| KeyProperties.MatchDiagonal | src/RekordboxPlaylistFormatter/Key.php:146 | 8A and 9B do not match |
| KeyProperties.MatchNext | src/RekordboxPlaylistFormatter/Key.php:137-151 | 8A and 9A match |
| KeyProperties.MatchPrevious | src/RekordboxPlaylistFormatter/Key.php:137-151 | 8A and 7A match |
| KeyProperties.MatchRelative | src/RekordboxPlaylistFormatter/Key.php:137-151 | 8A and 8B match |
| KeyProperties.MatchTooFar | src/RekordboxPlaylistFormatter/Key.php:142 | 8A and 10A do not match |
| KeyProperties.MatchCaseSensitive | src/RekordboxPlaylistFormatter/Key.php:146 | 8A and 9a do not match: letters are compared as written |
| KeyProperties.LastOptionWins | src/RekordboxPlaylistFormatter/Key.php:210-228 | the last option of a group decides that group's format |
| KeyProperties.OtherOptionsKeep | src/RekordboxPlaylistFormatter/Key.php:210-228 | options outside a group leave its format unchanged |
| KeyFindings.ThreeTokenModeKept | src/RekordboxPlaylistFormatter/Key.php:123-127 | as written, a word accidental leaves the mode word in the candidate, so the candidate is unlisted |
| KeyFindings.WordDisplayCandidate | src/RekordboxPlaylistFormatter/Key.php:123-129 | the candidate read from such a display: pitch, the accidental digit, then the mode word |
| KeyFindings.IntendedCandidate | src/RekordboxPlaylistFormatter/Key.php:110-129 | the corrected candidate, which resolves the mode word and reads the whole rest of the first token; specified by KeyFindings.IntendedReadDisplay, KeyFindings.IntendedAgreesOnTwoTokens and KeyFindings.IntendedAgreesOnNumericMode |
| KeyFindings.ParseCodeIntended | src/RekordboxPlaylistFormatter/Key.php:100-135 | the corrected parse keeps ParseCode's guarantees |
| KeyFindings.IntendedAgreesOnTwoTokens | src/RekordboxPlaylistFormatter/Key.php:113-121 | the correction changes nothing for two tokens with a short first token |
| KeyFindings.IntendedAgreesOnNumericMode | src/RekordboxPlaylistFormatter/Key.php:123-127 | nor for three tokens ending in a numeric mode |
| KeyFindings.IntendedAgrees | src/RekordboxPlaylistFormatter/Key.php:100-135 | both parses agree wherever their candidates do |
| KeyFindings.IntendedReadDisplay | src/RekordboxPlaylistFormatter/Key.php:191-201 | the corrected reading gives back pitch, accidental and mode from every display |
| KeyFindings.IntendedTraditional | src/RekordboxPlaylistFormatter/Key.php:129-134 | the corrected parse succeeds with a listed candidate |
| KeyFindings.IntendedRoundTrip | src/RekordboxPlaylistFormatter/Key.php:191-201 | under the corrected parse, every display in every format parses back to its own code |
| KeyFindings.IsCamelotMatchCircular | src/RekordboxPlaylistFormatter/Key.php:137-151 | the corrected check: positions adjacent round the wheel, same letter or same position |
| KeyFindings.CircularOnWheel | src/RekordboxPlaylistFormatter/Key.php:137-151 | two slots match round the wheel exactly when they are equal, neighbours or relatives |
| KeyFindings.AdjacentPositions | src/RekordboxPlaylistFormatter/Key.php:142 | circular adjacency is adjacency by the next position, both ways |
| KeyFindings.LinearImpliesCircular | src/RekordboxPlaylistFormatter/Key.php:137-151 | every pair the source accepts is accepted by the correction |
| KeyFindings.CircularWraps | src/RekordboxPlaylistFormatter/Key.php:142 | 1A and 12A match under the correction, not under the source |
| Playlists.StripInvalidCharacters | src/RekordboxPlaylistFormatter/Playlist.php:210-213 | the result has no invalid byte and is no longer than the input |
| Playlists.StripRow | src/RekordboxPlaylistFormatter/Playlist.php:26 | every field of the row is cleaned, the field count is kept |
| Playlists.LastIndex | src/RekordboxPlaylistFormatter/Playlist.php:31-36 | the last header position holding the name, or none exactly when the name is absent |
| Playlists.Combine | src/RekordboxPlaylistFormatter/Playlist.php:45 | array_combine yields no more pairs than there are columns |
| Playlists.CombineGet | src/RekordboxPlaylistFormatter/Playlist.php:45 | each column name is set to the field under its last occurrence in the header, no other name is set |
| Playlists.CombineDistinct | src/RekordboxPlaylistFormatter/Playlist.php:45 | array_combine never repeats a name |
| Playlists.CombineShaped | src/RekordboxPlaylistFormatter/Playlist.php:45 | the record has every column of the header, each once |
| Playlists.TracksWellFormed | src/RekordboxPlaylistFormatter/Playlist.php:21-52 | every assembled tracklist has distinct keys and header-shaped records, and is keyed by position without a # column |
| Playlists.AddRowWellFormed | src/RekordboxPlaylistFormatter/Playlist.php:40-49 | one more row keeps the tracklist well formed |
| Playlists.TrackNumberColumn | src/RekordboxPlaylistFormatter/Playlist.php:31-36 | the header loop leaves the last position of the # column, or none |
| Playlists.TracksStep | src/RekordboxPlaylistFormatter/Playlist.php:23-50 | each further line adds exactly one AddRow step |
| Playlists.SumTimeStep | src/RekordboxPlaylistFormatter/Playlist.php:104-120 | each track adds exactly one AddTrack step |
| Playlists.TallyStep | src/RekordboxPlaylistFormatter/Playlist.php:152-162 | each track adds exactly one Count step |
| Playlists.CountStep | src/RekordboxPlaylistFormatter/Playlist.php:155-161 | the count computed in the loop is 1 for a new key, one more than the stored count otherwise |
| Playlists.InsertByCount | src/RekordboxPlaylistFormatter/Playlist.php:164-166 | inserting adds one entry |
| Playlists.SortByCount | src/RekordboxPlaylistFormatter/Playlist.php:164-166 | uasort keeps the number of entries |
| Playlists.AddRow | src/RekordboxPlaylistFormatter/Playlist.php:40-49 | one line after the header: skipped on a field-count mismatch, appended without a # column, assigned under its track number otherwise; specified by Playlists.AddRowWellFormed, PlaylistProperties.KeptStep, PlaylistProperties.AppendedTracks and PlaylistProperties.NumberedTracks |
| Playlists.Tracks | src/RekordboxPlaylistFormatter/Playlist.php:23-50 | the tracklist built from the lines after the header; specified by Playlists.TracksWellFormed, PlaylistProperties.AppendedTracks, PlaylistProperties.NumberedTracks and PlaylistProperties.TracksCount |
| Playlists.Header | src/RekordboxPlaylistFormatter/Playlist.php:29-30 | the cleaned first line; the columns Playlists.Playlist.constructor stores |
| Playlists.Assemble | src/RekordboxPlaylistFormatter/Playlist.php:21-52 | the tracklist of an export; the tracklist Playlists.Playlist.constructor stores, well formed by Playlists.TracksWellFormed |
| Playlists.PieceValue | src/RekordboxPlaylistFormatter/Playlist.php:107-109 | the number a time piece adds; specified by PlaylistProperties.TimeFieldsShort and PlaylistProperties.TimeFieldsLong |
| Playlists.TimeFields | src/RekordboxPlaylistFormatter/Playlist.php:105-109 | the hours, minutes and seconds read from a time field; specified by PlaylistProperties.TimeFieldsShort and PlaylistProperties.TimeFieldsLong |
| Playlists.AddTrack | src/RekordboxPlaylistFormatter/Playlist.php:107-119 | one pass of getTime's loop; specified by PlaylistProperties.AddTrackBounds and PlaylistProperties.AddTrackSeconds |
| Playlists.SumTime | src/RekordboxPlaylistFormatter/Playlist.php:103-120 | the clock getTime returns; specified by PlaylistProperties.ClockBounds, PlaylistProperties.SumTimeSeconds and PlaylistFindings.MinutesReachSixty |
| Playlists.GenreName | src/RekordboxPlaylistFormatter/Playlist.php:153 | the genre a track is counted under; specified by PlaylistProperties.UnknownGenre |
| Playlists.GenreKey | src/RekordboxPlaylistFormatter/Playlist.php:154 | the normalised genre key; specified by PlaylistProperties.KeyOfUpper and PlaylistProperties.GenreKeySpellings |
| Playlists.Count | src/RekordboxPlaylistFormatter/Playlist.php:155-161 | one pass of getGenres' loop; specified by Playlists.CountStep and PlaylistProperties.TallyEntries |
| Playlists.TallyOf | src/RekordboxPlaylistFormatter/Playlist.php:150-162 | the tally before sorting; specified by PlaylistProperties.TallyEntries, PlaylistProperties.TallyDistinct and PlaylistProperties.TallyTotal |
| Playlists.LimitProperties | src/RekordboxPlaylistFormatter/Playlist.php:226-230 | the inner loop of limitRecordset over one track; specified by PlaylistProperties.LimitPropertiesAppend |
| Playlists.Limit | src/RekordboxPlaylistFormatter/Playlist.php:224-232 | the recordset limitRecordset builds; specified by PlaylistProperties.LimitIsProject and PlaylistProperties.ProjectGet |
| Playlists.Keep | src/RekordboxPlaylistFormatter/Playlist.php:226-230 | a track keeps no more properties than it has |
| Playlists.Project | src/RekordboxPlaylistFormatter/Playlist.php:225-231 | the projection has no more tracks than the tracklist |
| Playlists.Playlist.constructor | src/RekordboxPlaylistFormatter/Playlist.php:17-55 | the columns are the cleaned header and the tracklist is the assembled one, which is well formed |
| Playlists.Playlist.TrackCount | src/RekordboxPlaylistFormatter/Playlist.php:62-65 | the number of tracks in the tracklist |
| Playlists.Playlist.GetTime | src/RekordboxPlaylistFormatter/Playlist.php:98-127 | the loop's clock is SumTime of the tracklist; the Time column must exist |
| Playlists.Playlist.GetGenres | src/RekordboxPlaylistFormatter/Playlist.php:146-169 | the loop builds the tally of the tracklist, then sorts it by count; the Genre column must exist |
| Playlists.Playlist.LimitRecordset | src/RekordboxPlaylistFormatter/Playlist.php:222-233 | the nested loops build Limit of the tracklist |
| Playlists.Playlist.GetTracklist | src/RekordboxPlaylistFormatter/Playlist.php:73-80 | no columns gives the tracklist itself; columns give the limited recordset |
| PlaylistProperties.StripAppend | src/RekordboxPlaylistFormatter/Playlist.php:212 | cleaning a text is cleaning its parts |
| PlaylistProperties.StripClean | src/RekordboxPlaylistFormatter/Playlist.php:212 | a clean text is left unchanged |
| PlaylistProperties.StripIdempotent | src/RekordboxPlaylistFormatter/Playlist.php:212 | cleaning twice is cleaning once |
| PlaylistProperties.StripCounts | src/RekordboxPlaylistFormatter/Playlist.php:212 | every invalid byte is removed, every other byte is kept as often as it occurs |
| PlaylistProperties.Kept | src/RekordboxPlaylistFormatter/Playlist.php:40-42 | the kept lines are lines of the body that have the header's field count |
| PlaylistProperties.KeptStep | src/RekordboxPlaylistFormatter/Playlist.php:40-49 | a further line is kept exactly when its field count matches, and the tracklist follows |
| PlaylistProperties.AppendedTracks | src/RekordboxPlaylistFormatter/Playlist.php:44-47 | without a # column, track i is the record of the i-th kept line, under the key i |
| PlaylistProperties.LastNumbered | src/RekordboxPlaylistFormatter/Playlist.php:49 | the line found is a kept line with that track number |
| PlaylistProperties.NumberedTracks | src/RekordboxPlaylistFormatter/Playlist.php:49 | with a # column, a track number holds the record of the last kept line with that number, or nothing |
| PlaylistProperties.NumberedKeys | src/RekordboxPlaylistFormatter/Playlist.php:49 | with a # column, every track is keyed by a track number |
| PlaylistProperties.TracksCount | src/RekordboxPlaylistFormatter/Playlist.php:40-49 | never more tracks than kept lines |
| PlaylistProperties.TimeFieldsShort | src/RekordboxPlaylistFormatter/Playlist.php:105-109 | "m:s" reads as no hours, m minutes, s seconds |
| PlaylistProperties.TimeFieldsLong | src/RekordboxPlaylistFormatter/Playlist.php:105-109 | "h:m:s" reads as h hours, m minutes, s seconds |
| PlaylistProperties.AddTrackBounds | src/RekordboxPlaylistFormatter/Playlist.php:111-119 | one pass leaves fewer than 60 seconds and at most 60 minutes |
| PlaylistProperties.ClockBounds | src/RekordboxPlaylistFormatter/Playlist.php:103-126 | the clock returned has fewer than 60 seconds and at most 60 minutes, for every tracklist |
| PlaylistProperties.AddTrackSeconds | src/RekordboxPlaylistFormatter/Playlist.php:107-119 | adding a regular time to a bounded sum adds exactly its seconds |
| PlaylistProperties.SumTimeSeconds | src/RekordboxPlaylistFormatter/Playlist.php:98-127 | when every track time has minutes and seconds below 60, the clock stands for exactly the playing time |
| PlaylistProperties.TallyEntries | src/RekordboxPlaylistFormatter/Playlist.php:152-162 | a genre key is tallied exactly when some track has it, with the number of such tracks and the name of the last one |
| PlaylistProperties.TallyDistinct | src/RekordboxPlaylistFormatter/Playlist.php:157 | no genre key is tallied twice |
| PlaylistProperties.TotalPut | src/RekordboxPlaylistFormatter/Playlist.php:157 | replacing an entry replaces its count in the sum |
| PlaylistProperties.TallyTotal | src/RekordboxPlaylistFormatter/Playlist.php:151-162 | the counts add up to the number of tracks |
| PlaylistProperties.UnknownGenre | src/RekordboxPlaylistFormatter/Playlist.php:153 | a track with an empty genre counts as Unknown, together with the tracks whose genre is Unknown |
| PlaylistProperties.KeyOfUpper | src/RekordboxPlaylistFormatter/Playlist.php:154 | capitals do not change the genre key |
| PlaylistProperties.GenreKeySpellings | src/RekordboxPlaylistFormatter/Playlist.php:154 | spellings that differ in spaces or capitals are counted together |
| PlaylistProperties.InsertBelow | src/RekordboxPlaylistFormatter/Playlist.php:164-166 | insertion keeps every count under a common bound |
| PlaylistProperties.InsertSorted | src/RekordboxPlaylistFormatter/Playlist.php:164-166 | insertion keeps the order largest first |
| PlaylistProperties.InsertPermutes | src/RekordboxPlaylistFormatter/Playlist.php:164-166 | insertion adds exactly the entry |
| PlaylistProperties.SortByCountSorts | src/RekordboxPlaylistFormatter/Playlist.php:164-166 | the genres come out largest count first and are a permutation of the tally |
| PlaylistProperties.KeepGet | src/RekordboxPlaylistFormatter/Playlist.php:226-230 | a property is kept exactly when its name is chosen, with its value |
| PlaylistProperties.KeepKeys | src/RekordboxPlaylistFormatter/Playlist.php:227-228 | keeping never invents a name |
| PlaylistProperties.KeepDistinct | src/RekordboxPlaylistFormatter/Playlist.php:228 | keeping keeps names distinct |
| PlaylistProperties.ProjectKeys | src/RekordboxPlaylistFormatter/Playlist.php:225-231 | the projection has only tracks of the tracklist |
| PlaylistProperties.LimitPropertiesAppend | src/RekordboxPlaylistFormatter/Playlist.php:226-230 | the inner loop over a new track appends that track's kept properties, or nothing when none is kept |
| PlaylistProperties.LimitIsProject | src/RekordboxPlaylistFormatter/Playlist.php:222-233 | on a tracklist limitRecordset is the projection: each track reduced to the chosen properties, tracks with none dropped |
| PlaylistProperties.ProjectGet | src/RekordboxPlaylistFormatter/Playlist.php:222-233 | a track is in the recordset exactly when it has a chosen property, holding just those |
| PlaylistFindings.MinutesReachSixty | src/RekordboxPlaylistFormatter/Playlist.php:111-119 | 59:59 and 0:01 sum to 0 hours, 60 minutes, 0 seconds |
| PlaylistFindings.LongTrackLosesAnHour | src/RekordboxPlaylistFormatter/Playlist.php:111-114 | one track of 125:00 sums to 1:05:00, an hour short |
| PlaylistFindings.AddTrackCarriedExact | src/RekordboxPlaylistFormatter/Playlist.php:107-119 | the corrected carry gives a regular clock with exactly the added seconds |
| PlaylistFindings.SumTimeCarriedExact | src/RekordboxPlaylistFormatter/Playlist.php:98-127 | corrected: for every tracklist the clock is regular and stands for exactly the playing time |
| PlaylistFindings.CarriedAgrees | src/RekordboxPlaylistFormatter/Playlist.php:98-127 | where the source is exact the correction stands for the same time |

## Left out

- Reading the export: the file is opened and read line by line with `fgetcsv` on tabs, and `die` is called when it cannot be opened. The model takes the lines already split into fields as the constructor's input.
- A blank line of the export: `fgetcsv` gives a row holding one null field, and `array_walk` then passes null to stripInvalidCharacters, whose parameter is a non-nullable string, so PHP fails with a TypeError. The model accepts only rows of texts and does not capture that failure.
- `getColumns`, `getJson`, `getAverageBpm`: accessors, output and floating-point averages, outside the core.
- The percentages of `getGenres` are floating point and left out. The tally holds the name and count of each genre.
- `assertColumnExists` is PHP's `assert`, which can be switched off. It is modelled as the `requires` of GetTime and GetGenres.
- PHP turns a numeric-string array key into an integer, and `in_array` compares loosely. Track numbers and column names are modelled as texts compared exactly.
- Playlists.PieceValue: a time piece that is not a digit string counts as 0. PHP reads a numeric piece such as " 5" or "5.0" by its value in every version, and a leading-numeric piece such as "5x" by its leading number with a warning. A wholly non-numeric piece ("", "x") counts as 0 with a warning in PHP 7 and throws a TypeError in PHP 8.
- Playlists.TimeFields: a missing minutes or seconds piece reads as 0, where PHP reads undefined offsets as null with a warning.
- Playlists.Playlist.GetTracklist: a null column list and an empty one both give the whole tracklist; the model has only the empty list.
- Playlists.SortByCount: uasort is modelled as a stable sort, largest count first. PHP 8's sort is stable as well; PHP 7's is not, and equal counts may come out in another order there.
- Playlists.Playlist.constructor: the source assigns the columns before it reads the tracks. The model collects the header in a local and assigns it after the loop, which no caller can observe.
- KeyNotation.ParseCode: a Camelot-shaped input that is not listed ("01a") is reported as the error UnlistedCamelot. In PHP, `array_search` answers false, and the Key is built with an empty code, for which toCamelot and toString read entries the tables do not have.
- KeyNotation.IsCamelotMatch requires both numeric parts to be digit strings. PHP subtracts numeric non-digit parts such as " 8" by value without a warning, reads a leading-numeric part with a warning, and throws on a wholly non-numeric part in PHP 8; none of these cases is modelled.
- KeyNotation.IsCamelotKey: the range comparison is modelled on digit strings only, and any other numeric part is out of range. PHP compares a numeric part such as " 5" by value. PHP 8 compares a non-numeric part with 1 and 12 as texts, so "1#a" passes and "2#a" fails ("2#" sorts after "12"); PHP 7 compares its leading number.
- KeyNotation.Key.SetOptions: options are integers compared exactly. PHP's `switch` compares loosely, so "1", true or 1.0 also select a format.
- KeyNotation.KeywordAsInt: `is_numeric` is modelled as "one or more ASCII digits"; leading blanks, signs, decimals and exponents are left out.
- `strtolower` and `strtoupper` are modelled on ASCII letters only, as PHP does from 8.2 on. Earlier versions follow the locale.
- PHP integers are unbounded here; the 64-bit limit is far beyond any playing time.

## Findings

| source | as written | input that shows it | evidently intended | confidence | as-written member | corrected member |
|---|---|---|---|---|---|---|
| src/RekordboxPlaylistFormatter/Key.php:123-127 | the three-token path resolves the accidental word but appends the mode word unresolved | "F Sharp Minor", the display of f10 with the word format, gives candidate f1minor and throws | the mode word resolved by keywordAsInt, so that every display parses back | not executed | KeyFindings.ThreeTokenModeKept | KeyFindings.IntendedRoundTrip |
| src/RekordboxPlaylistFormatter/Key.php:117-118 | the accidental is read only when the first token is two bytes, but the flat sign takes three | "A♭ Minor", the default display of a20 (1A), parses to a00 (8A) | the rest of the first token read as the accidental | not executed | KeyProperties.DisplayFlatSign | KeyFindings.IntendedRoundTrip |
| src/RekordboxPlaylistFormatter/Key.php:142 | the distance is taken on the line 1..12 | 1A and 12A, neighbours on the wheel, do not match | the distance taken round the wheel | not executed | KeyProperties.MatchNoWrap | KeyFindings.CircularOnWheel |
| src/RekordboxPlaylistFormatter/Playlist.php:111-119 | minutes are carried before the seconds' carry adds one more minute | tracks 59:59 and 0:01 give 0 hours, 60 minutes, 0 seconds | 1 hour, 0 minutes, 0 seconds | not executed | PlaylistFindings.MinutesReachSixty | PlaylistFindings.SumTimeCarriedExact |
| src/RekordboxPlaylistFormatter/Playlist.php:111-114 | a carry adds one hour, whatever the number of minutes | one track of 125:00 gives 1 hour, 5 minutes | 2 hours, 5 minutes | not executed | PlaylistFindings.LongTrackLosesAnHour | PlaylistFindings.SumTimeCarriedExact |
