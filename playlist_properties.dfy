/**
 * What the playlist promises, proved about the functions the methods of
 * Playlists.Playlist are specified by: the cleaning of the fields, the
 * assembly of the tracklist, the playing time, the genre tally and the
 * limited recordset.
 */
module PlaylistProperties {
  import opened Outcomes
  import opened ByteStrings
  import opened PhpArrays
  import opened Playlists

  // ---------------------------------------------------------------------
  // Cleaning the fields

  /** Cleaning a text is cleaning its parts. */
  lemma {:induction false} StripAppend(a: string, b: string)
    ensures StripInvalidCharacters(a + b) == StripInvalidCharacters(a) + StripInvalidCharacters(b)
  {
    if a == [] {
      assert a + b == b;
    } else {
      var head := if InvalidByte(a[0]) then [] else [a[0]];
      assert (a + b)[0] == a[0];
      assert (a + b)[1..] == a[1..] + b;
      assert StripInvalidCharacters(a + b) == head + StripInvalidCharacters(a[1..] + b);
      StripAppend(a[1..], b);
      assert StripInvalidCharacters(a) == head + StripInvalidCharacters(a[1..]);
    }
  }

  /** A text without invalid bytes is left as it is. */
  lemma {:induction false} StripClean(s: string)
    requires Clean(s)
    ensures StripInvalidCharacters(s) == s
  {
    if s != [] {
      StripClean(s[1..]);
      assert [s[0]] + s[1..] == s;
    }
  }

  /** Cleaning twice is cleaning once. */
  lemma StripIdempotent(s: string)
    ensures StripInvalidCharacters(StripInvalidCharacters(s)) == StripInvalidCharacters(s)
  {
    StripClean(StripInvalidCharacters(s));
  }

  /** Every invalid byte is gone, and every other byte is kept as often as it occurs. */
  lemma {:induction false} StripCounts(s: string, c: char)
    ensures multiset(StripInvalidCharacters(s))[c] == if InvalidByte(c) then 0 else multiset(s)[c]
  {
    if s != [] {
      StripCounts(s[1..], c);
      assert s == [s[0]] + s[1..];
      assert multiset(s) == multiset{s[0]} + multiset(s[1..]);
    }
  }

  // ---------------------------------------------------------------------
  // Assembling the tracklist

  /** The cleaned lines after the header that have the header's field count, in order. */
  function Kept(header: Row, body: seq<Row>): (r: seq<Row>)
    ensures |r| <= |body|
    ensures forall i :: 0 <= i < |r| ==> |r[i]| == |header|
  {
    if body == [] then []
    else
      var n := |body| - 1;
      var fields := StripRow(body[n]);
      Kept(header, body[..n]) + if |fields| == |header| then [fields] else []
  }

  /** One more line of the export is kept or skipped, and the tracklist follows. */
  lemma KeptStep(header: Row, body: seq<Row>)
    requires body != []
    ensures var n := |body| - 1; var fields := StripRow(body[n]);
      && Kept(header, body) == Kept(header, body[..n]) + (if |fields| == |header| then [fields] else [])
      && Tracks(header, body) == AddRow(Tracks(header, body[..n]), header, body[n])
  {
  }

  /** Without a track-number column, track i is the i-th kept line, under the key i. */
  lemma {:induction false} AppendedTracks(header: Row, body: seq<Row>)
    requires TRACK_NUMBER !in header
    ensures |Tracks(header, body)| == |Kept(header, body)|
    ensures forall i :: 0 <= i < |Tracks(header, body)| ==>
      Tracks(header, body)[i] == (Position(i), Combine(header, Kept(header, body)[i]))
  {
    if body != [] {
      var n := |body| - 1;
      AppendedTracks(header, body[..n]);
      KeptStep(header, body);
    }
  }

  /** The last kept line whose track-number field is `number`. */
  function LastNumbered(rows: seq<Row>, index: nat, number: string): (r: Option<Row>)
    ensures r.Some? ==> r.value in rows && index < |r.value| && r.value[index] == number
  {
    if rows == [] then None
    else
      var n := |rows| - 1;
      if index < |rows[n]| && rows[n][index] == number then Some(rows[n])
      else LastNumbered(rows[..n], index, number)
  }

  /**
   * With a track-number column, the track under a number is the record of the
   * last kept line with that number, and no track is under a number no kept
   * line has: a later line replaces an earlier one with the same number.
   */
  lemma {:induction false} NumberedTracks(header: Row, body: seq<Row>, number: string)
    requires TRACK_NUMBER in header
    ensures Get(Tracks(header, body), Number(number)) ==
      match LastNumbered(Kept(header, body), LastIndex(header, TRACK_NUMBER).value, number)
      case None => None
      case Some(row) => Some(Combine(header, row))
  {
    if body != [] {
      var n := |body| - 1;
      var index := LastIndex(header, TRACK_NUMBER).value;
      var before := Tracks(header, body[..n]);
      var kept := Kept(header, body[..n]);
      var fields := StripRow(body[n]);
      NumberedTracks(header, body[..n], number);
      KeptStep(header, body);
      if |fields| == |header| {
        assert Kept(header, body) == kept + [fields];
        assert (kept + [fields])[..|kept|] == kept;
        assert (kept + [fields])[|kept|] == fields;
        assert Tracks(header, body) == Put(before, Number(fields[index]), Combine(header, fields));
        if fields[index] == number {
          PutGet(before, Number(number), Combine(header, fields));
        } else {
          PutOther(before, Number(fields[index]), Combine(header, fields), Number(number));
        }
      } else {
        assert Kept(header, body) == kept;
        assert Tracks(header, body) == before;
      }
    }
  }

  /** With a track-number column, every track is keyed by a track number. */
  lemma {:induction false} NumberedKeys(header: Row, body: seq<Row>)
    requires TRACK_NUMBER in header
    ensures forall i :: 0 <= i < |Tracks(header, body)| ==> Tracks(header, body)[i].0.Number?
  {
    if body != [] {
      var n := |body| - 1;
      var before := Tracks(header, body[..n]);
      NumberedKeys(header, body[..n]);
      var fields := StripRow(body[n]);
      if |fields| == |header| {
        var key := Number(fields[LastIndex(header, TRACK_NUMBER).value]);
        forall i | 0 <= i < |Tracks(header, body)| ensures Tracks(header, body)[i].0.Number? {
          PutEntry(before, key, Combine(header, fields), i);
        }
      }
    }
  }

  /** Never more tracks than kept lines. */
  lemma {:induction false} TracksCount(header: Row, body: seq<Row>)
    ensures |Tracks(header, body)| <= |Kept(header, body)|
  {
    if body != [] {
      var n := |body| - 1;
      TracksCount(header, body[..n]);
      KeptStep(header, body);
    }
  }

  // ---------------------------------------------------------------------
  // The playing time

  /** A number of minutes and seconds as a clock shows them: both below 60. */
  predicate Regular(c: Clock) {
    c.minutes <= 59 && c.seconds <= 59
  }

  /** Every track's time field reads as a regular time. */
  predicate RegularTimes(tracks: Tracklist) {
    forall i :: 0 <= i < |tracks| ==> Regular(TimeFields(Field(tracks[i].1, TIME)))
  }

  /** The playing time of the tracks in seconds: the sum getTime is meant to express. */
  function TotalSeconds(tracks: Tracklist): nat {
    if tracks == [] then 0
    else
      var n := |tracks| - 1;
      TotalSeconds(tracks[..n]) + Seconds(TimeFields(Field(tracks[n].1, TIME)))
  }

  /** A time field written as minutes and seconds reads back as those numbers, with no hours. */
  lemma TimeFieldsShort(m: string, s: string)
    requires IsDigits(m) && IsDigits(s)
    ensures TimeFields(m + ":" + s) == Clock(0, DigitsValue(m), DigitsValue(s))
  {
    assert ':' !in m && ':' !in s;
    assert m + ":" + s == m + [':'] + s;
    ExplodeTwo(m, ':', s);
    var time := Explode(m + ":" + s, ':');
    assert time == [m, s];
    assert PieceValue(time[0]) == DigitsValue(m) && PieceValue(time[1]) == DigitsValue(s);
  }

  /** A time field written as hours, minutes and seconds reads back as those numbers. */
  lemma TimeFieldsLong(h: string, m: string, s: string)
    requires IsDigits(h) && IsDigits(m) && IsDigits(s)
    ensures TimeFields(h + ":" + m + ":" + s) == Clock(DigitsValue(h), DigitsValue(m), DigitsValue(s))
  {
    assert ':' !in h && ':' !in m && ':' !in s;
    assert h + ":" + m + ":" + s == h + [':'] + m + [':'] + s;
    ExplodeThree(h, ':', m, s);
    var time := Explode(h + ":" + m + ":" + s, ':');
    assert time == [h, m, s];
    assert PieceValue(time[0]) == DigitsValue(h) && PieceValue(time[1]) == DigitsValue(m);
    assert PieceValue(time[2]) == DigitsValue(s);
  }

  /** Whatever the tracks, one pass leaves fewer than 60 seconds and at most 60 minutes. */
  lemma AddTrackBounds(sum: Clock, track: Clock)
    ensures AddTrack(sum, track).seconds <= 59 && AddTrack(sum, track).minutes <= 60
  {
  }

  /** The sum getTime returns has fewer than 60 seconds and at most 60 minutes. */
  lemma ClockBounds(tracks: Tracklist)
    ensures SumTime(tracks).seconds <= 59 && SumTime(tracks).minutes <= 60
  {
    if tracks != [] {
      var n := |tracks| - 1;
      AddTrackBounds(SumTime(tracks[..n]), TimeFields(Field(tracks[n].1, TIME)));
    }
  }

  /** Adding a regular time to a sum within those bounds keeps the number of seconds exact. */
  lemma AddTrackSeconds(sum: Clock, track: Clock)
    requires sum.minutes <= 60 && sum.seconds <= 59 && Regular(track)
    ensures Seconds(AddTrack(sum, track)) == Seconds(sum) + Seconds(track)
  {
    var minutes := sum.minutes + track.minutes;
    var seconds := sum.seconds + track.seconds;
    if minutes > 59 {
      assert minutes % 60 == minutes - 60;
    }
    if seconds > 59 {
      assert seconds % 60 == seconds - 60;
    }
  }

  /** When every track time is regular, getTime's clock stands for the exact playing time. */
  lemma {:induction false} SumTimeSeconds(tracks: Tracklist)
    requires RegularTimes(tracks)
    ensures Seconds(SumTime(tracks)) == TotalSeconds(tracks)
  {
    if tracks != [] {
      var n := |tracks| - 1;
      assert RegularTimes(tracks[..n]) by {
        forall i | 0 <= i < n ensures Regular(TimeFields(Field(tracks[..n][i].1, TIME))) {
          assert tracks[..n][i] == tracks[i];
        }
      }
      SumTimeSeconds(tracks[..n]);
      ClockBounds(tracks[..n]);
      AddTrackSeconds(SumTime(tracks[..n]), TimeFields(Field(tracks[n].1, TIME)));
    }
  }

  // ---------------------------------------------------------------------
  // The genre statistics

  /** The genre key a track is counted under. */
  function TrackGenre(record: Record): string {
    GenreKey(GenreName(record))
  }

  /** The number of tracks counted under a key. */
  function Occurrences(tracks: Tracklist, key: string): nat {
    if tracks == [] then 0
    else
      var n := |tracks| - 1;
      Occurrences(tracks[..n], key) + if TrackGenre(tracks[n].1) == key then 1 else 0
  }

  /** The genre name of the last track counted under a key. */
  function LatestName(tracks: Tracklist, key: string): string {
    if tracks == [] then ""
    else
      var n := |tracks| - 1;
      if TrackGenre(tracks[n].1) == key then GenreName(tracks[n].1) else LatestName(tracks[..n], key)
  }

  /**
   * The tally has an entry for exactly the keys some track is counted under;
   * it holds the number of those tracks and the spelling of the last of them.
   */
  lemma {:induction false} TallyEntries(tracks: Tracklist, key: string)
    ensures Occurrences(tracks, key) == 0 ==> Get(TallyOf(tracks), key) == None
    ensures Occurrences(tracks, key) > 0 ==> Get(TallyOf(tracks), key) == Some(GenreStat(LatestName(tracks, key), Occurrences(tracks, key)))
  {
    if tracks != [] {
      var n := |tracks| - 1;
      var before := TallyOf(tracks[..n]);
      var record := tracks[n].1;
      TallyEntries(tracks[..n], key);
      var k := TrackGenre(record);
      var count := if Get(before, k).None? then 1 else Get(before, k).value.count + 1;
      CountStep(before, record, count);
      assert TallyOf(tracks) == Put(before, k, GenreStat(GenreName(record), count));
      var occurrences := Occurrences(tracks[..n], key);
      if k == key {
        assert Occurrences(tracks, key) == occurrences + 1;
        assert LatestName(tracks, key) == GenreName(record);
        assert count == occurrences + 1;
        PutGet(before, k, GenreStat(GenreName(record), count));
        assert Get(TallyOf(tracks), key) == Some(GenreStat(GenreName(record), count));
      } else {
        assert Occurrences(tracks, key) == occurrences;
        assert LatestName(tracks, key) == LatestName(tracks[..n], key);
        PutOther(before, k, GenreStat(GenreName(record), count), key);
        assert Get(TallyOf(tracks), key) == Get(before, key);
      }
    } else {
      assert TallyOf(tracks) == [];
    }
  }

  /** No genre key is tallied twice. */
  lemma {:induction false} TallyDistinct(tracks: Tracklist)
    ensures DistinctKeys(TallyOf(tracks))
  {
    if tracks != [] {
      var n := |tracks| - 1;
      var before := TallyOf(tracks[..n]);
      var record := tracks[n].1;
      TallyDistinct(tracks[..n]);
      var k := TrackGenre(record);
      var count := match Get(before, k) case None => 1 case Some(stat) => stat.count + 1;
      PutDistinct(before, k, GenreStat(GenreName(record), count));
    }
  }

  /** The sum of the counts of a tally. */
  function TotalCount(tally: Tally): nat {
    if tally == [] then 0 else tally[0].1.count + TotalCount(tally[1..])
  }

  /** The count an entry held before an assignment, 0 for a new key. */
  function CountAt(tally: Tally, key: string): nat {
    match Get(tally, key)
    case None => 0
    case Some(stat) => stat.count
  }

  /** Replacing an entry replaces its count in the sum. */
  lemma {:induction false} TotalPut(tally: Tally, key: string, stat: GenreStat)
    ensures TotalCount(Put(tally, key, stat)) + CountAt(tally, key) == TotalCount(tally) + stat.count
  {
    if tally != [] && tally[0].0 != key {
      TotalPut(tally[1..], key, stat);
      assert Put(tally, key, stat)[1..] == Put(tally[1..], key, stat);
    }
  }

  /** Every track is counted once: the counts add up to the number of tracks. */
  lemma {:induction false} TallyTotal(tracks: Tracklist)
    ensures TotalCount(TallyOf(tracks)) == |tracks|
  {
    if tracks != [] {
      var n := |tracks| - 1;
      var before := TallyOf(tracks[..n]);
      var record := tracks[n].1;
      TallyTotal(tracks[..n]);
      var k := TrackGenre(record);
      var count := match Get(before, k) case None => 1 case Some(stat) => stat.count + 1;
      TotalPut(before, k, GenreStat(GenreName(record), count));
    }
  }

  /** A track with an empty genre, or none, is counted as Unknown, together with the tracks whose genre reads Unknown. */
  lemma UnknownGenre(record: Record, other: Record)
    requires Empty(Field(record, GENRE)) && Field(other, GENRE) == UNKNOWN_GENRE
    ensures GenreName(record) == UNKNOWN_GENRE && GenreName(other) == UNKNOWN_GENRE
    ensures TrackGenre(record) == TrackGenre(other)
  {
    assert !Empty(UNKNOWN_GENRE) by {
      assert |UNKNOWN_GENRE| == 7;
    }
  }

  /** Removing spaces commutes with upper-casing, and lower-casing forgets the difference. */
  lemma {:induction false} KeyOfUpper(name: string)
    ensures GenreKey(Upper(name)) == GenreKey(name)
  {
    if name != [] {
      KeyOfUpper(name[1..]);
      assert Upper(name) == [UpperByte(name[0])] + Upper(name[1..]);
      assert name == [name[0]] + name[1..];
      RemoveAllAppend([UpperByte(name[0])], Upper(name[1..]), ' ');
      RemoveAllAppend([name[0]], name[1..], ' ');
      var head := RemoveAll([name[0]], ' ');
      var upperHead := RemoveAll([UpperByte(name[0])], ' ');
      LowerAppend(upperHead, RemoveAll(Upper(name[1..]), ' '));
      LowerAppend(head, RemoveAll(name[1..], ' '));
    }
  }

  /** Spellings of a genre that differ only in capitals and spaces are counted together. */
  lemma GenreKeySpellings(a: string, b: string)
    ensures GenreKey(a + " " + b) == GenreKey(a + b)
    ensures GenreKey(Upper(a)) == GenreKey(a)
  {
    RemoveAllAppend(a + " ", b, ' ');
    RemoveAllAppend(a, " ", ' ');
    RemoveAllAppend(a, b, ' ');
    KeyOfUpper(a);
  }

  /** Largest count first. */
  predicate SortedByCount(tally: Tally) {
    forall i, j :: 0 <= i < j < |tally| ==> tally[i].1.count >= tally[j].1.count
  }

  /** Inserting under a bound keeps every count under it. */
  lemma {:induction false} InsertBelow(entry: (string, GenreStat), sorted: Tally, bound: nat)
    requires entry.1.count <= bound && forall i :: 0 <= i < |sorted| ==> sorted[i].1.count <= bound
    ensures forall i :: 0 <= i < |InsertByCount(entry, sorted)| ==> InsertByCount(entry, sorted)[i].1.count <= bound
  {
    if sorted != [] && entry.1.count < sorted[0].1.count {
      InsertBelow(entry, sorted[1..], bound);
    }
  }

  lemma {:induction false} InsertSorted(entry: (string, GenreStat), sorted: Tally)
    requires SortedByCount(sorted)
    ensures SortedByCount(InsertByCount(entry, sorted))
  {
    if sorted != [] && entry.1.count < sorted[0].1.count {
      var rest := sorted[1..];
      assert SortedByCount(rest) by {
        forall i, j | 0 <= i < j < |rest| ensures rest[i].1.count >= rest[j].1.count {
          assert rest[i] == sorted[i + 1] && rest[j] == sorted[j + 1];
        }
      }
      InsertSorted(entry, rest);
      assert forall i :: 0 <= i < |rest| ==> rest[i].1.count <= sorted[0].1.count by {
        forall i | 0 <= i < |rest| ensures rest[i].1.count <= sorted[0].1.count {
          assert rest[i] == sorted[i + 1];
        }
      }
      InsertBelow(entry, rest, sorted[0].1.count);
    }
  }

  lemma {:induction false} InsertPermutes(entry: (string, GenreStat), sorted: Tally)
    ensures multiset(InsertByCount(entry, sorted)) == multiset(sorted) + multiset{entry}
  {
    if sorted != [] && entry.1.count < sorted[0].1.count {
      InsertPermutes(entry, sorted[1..]);
      assert sorted == [sorted[0]] + sorted[1..];
    }
  }

  /** uasort's result is ordered by count, largest first, and holds the same entries. */
  lemma {:induction false} SortByCountSorts(tally: Tally)
    ensures SortedByCount(SortByCount(tally))
    ensures multiset(SortByCount(tally)) == multiset(tally)
  {
    if tally != [] {
      SortByCountSorts(tally[1..]);
      InsertSorted(tally[0], SortByCount(tally[1..]));
      InsertPermutes(tally[0], SortByCount(tally[1..]));
      assert tally == [tally[0]] + tally[1..];
    }
  }

  // ---------------------------------------------------------------------
  // Keeping chosen columns

  /** A property is kept exactly when its name is chosen, with its value. */
  lemma {:induction false} KeepGet(record: Record, columns: seq<string>, name: string)
    ensures name in columns ==> Get(Keep(record, columns), name) == Get(record, name)
    ensures name !in columns ==> Get(Keep(record, columns), name) == None
  {
    if record != [] {
      var n := |record| - 1;
      var extra := if record[n].0 in columns then [record[n]] else [];
      KeepGet(record[..n], columns, name);
      GetAppend(Keep(record[..n], columns), extra, name);
      assert record == record[..n] + [record[n]];
      GetAppend(record[..n], [record[n]], name);
    }
  }

  /** Keeping properties never invents a name. */
  lemma KeepKeys(record: Record, columns: seq<string>, name: string)
    requires HasKey(Keep(record, columns), name)
    ensures HasKey(record, name)
  {
    KeepGet(record, columns, name);
  }

  /** Keeping the properties of a record without repeated names keeps them distinct. */
  lemma {:induction false} KeepDistinct(record: Record, columns: seq<string>)
    requires DistinctKeys(record)
    ensures DistinctKeys(Keep(record, columns))
  {
    if record != [] {
      var n := |record| - 1;
      DistinctPrefix(record, n);
      KeepDistinct(record[..n], columns);
      if record[n].0 in columns {
        var kept := Keep(record[..n], columns);
        assert !HasKey(kept, record[n].0) by {
          if HasKey(kept, record[n].0) {
            KeepKeys(record[..n], columns, record[n].0);
          }
        }
        PutOrder(kept, record[n].0, record[n].1);
        PutDistinct(kept, record[n].0, record[n].1);
      }
    }
  }

  /** The tracks of the projection are among the tracks. */
  lemma {:induction false} ProjectKeys(tracks: Tracklist, columns: seq<string>, key: TrackKey)
    requires HasKey(Project(tracks, columns), key)
    ensures HasKey(tracks, key)
  {
    var n := |tracks| - 1;
    var kept := Keep(tracks[n].1, columns);
    var extra := if kept == [] then [] else [(tracks[n].0, kept)];
    GetAppend(Project(tracks[..n], columns), extra, key);
    assert tracks == tracks[..n] + [tracks[n]];
    GetAppend(tracks[..n], [tracks[n]], key);
    if HasKey(Project(tracks[..n], columns), key) {
      ProjectKeys(tracks[..n], columns, key);
    }
  }

  /**
   * The inner loop over one track's properties, for a track not yet in the
   * recordset: the track is appended with its chosen properties, or left out
   * when none is chosen.
   */
  lemma {:induction false} LimitPropertiesAppend(recordset: Tracklist, key: TrackKey, properties: Record, columns: seq<string>)
    requires !HasKey(recordset, key) && DistinctKeys(properties)
    ensures LimitProperties(recordset, key, properties, columns) ==
      recordset + if Keep(properties, columns) == [] then [] else [(key, Keep(properties, columns))]
  {
    if properties != [] {
      var n := |properties| - 1;
      var (name, property) := properties[n];
      DistinctPrefix(properties, n);
      LimitPropertiesAppend(recordset, key, properties[..n], columns);
      var kept := Keep(properties[..n], columns);
      var before := LimitProperties(recordset, key, properties[..n], columns);
      if name in columns {
        assert Keep(properties, columns) == kept + [(name, property)];
        assert !HasKey(kept, name) by {
          if HasKey(kept, name) {
            KeepKeys(properties[..n], columns, name);
          }
        }
        if kept == [] {
          assert before == recordset;
          assert RecordAt(before, key) == [];
          PutOrder(recordset, key, [(name, property)]);
        } else {
          assert before == recordset + [(key, kept)];
          GetAppend(recordset, [(key, kept)], key);
          assert RecordAt(before, key) == kept;
          PutOrder(kept, name, property);
          PutLast(recordset, key, kept, kept + [(name, property)]);
        }
      } else {
        assert Keep(properties, columns) == kept;
      }
    }
  }

  /**
   * limitRecordset keeps, for each track in order, the properties whose names
   * are chosen, and leaves out a track none of whose names is chosen.
   */
  lemma {:induction false} LimitIsProject(tracks: Tracklist, columns: seq<string>)
    requires DistinctKeys(tracks)
    requires forall i :: 0 <= i < |tracks| ==> DistinctKeys(tracks[i].1)
    ensures Limit(tracks, columns) == Project(tracks, columns)
  {
    if tracks != [] {
      var n := |tracks| - 1;
      DistinctPrefix(tracks, n);
      assert forall i :: 0 <= i < n ==> tracks[..n][i] == tracks[i];
      LimitIsProject(tracks[..n], columns);
      var before := Project(tracks[..n], columns);
      assert !HasKey(before, tracks[n].0) by {
        if HasKey(before, tracks[n].0) {
          ProjectKeys(tracks[..n], columns, tracks[n].0);
        }
      }
      LimitPropertiesAppend(before, tracks[n].0, tracks[n].1, columns);
    }
  }

  /**
   * Looked up by track: a track of the projection holds the chosen properties
   * of that track, and a track with none chosen, or no such track, is absent.
   */
  lemma {:induction false} ProjectGet(tracks: Tracklist, columns: seq<string>, key: TrackKey)
    requires DistinctKeys(tracks)
    ensures Get(tracks, key).None? ==> Get(Project(tracks, columns), key).None?
    ensures Get(tracks, key).Some? && Keep(Get(tracks, key).value, columns) == [] ==>
      Get(Project(tracks, columns), key).None?
    ensures Get(tracks, key).Some? && Keep(Get(tracks, key).value, columns) != [] ==>
      Get(Project(tracks, columns), key) == Some(Keep(Get(tracks, key).value, columns))
  {
    if tracks != [] {
      var n := |tracks| - 1;
      DistinctPrefix(tracks, n);
      ProjectGet(tracks[..n], columns, key);
      var kept := Keep(tracks[n].1, columns);
      var extra := if kept == [] then [] else [(tracks[n].0, kept)];
      GetAppend(Project(tracks[..n], columns), extra, key);
      assert tracks == tracks[..n] + [tracks[n]];
      GetAppend(tracks[..n], [tracks[n]], key);
      if HasKey(tracks[..n], key) {
        assert tracks[n].0 != key;
        assert Get(tracks, key) == Get(tracks[..n], key);
        assert Get(extra, key).None?;
      } else if tracks[n].0 == key {
        assert Get(tracks, key) == Some(tracks[n].1);
        assert Get(Project(tracks[..n], columns), key).None?;
      } else {
        assert Get(tracks, key).None? && Get(extra, key).None?;
      }
    }
  }
}
