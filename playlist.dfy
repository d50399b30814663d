/**
 * The playlist of src/RekordboxPlaylistFormatter/Playlist.php: the rows of a
 * tab-separated Rekordbox export, already split into fields, are cleaned and
 * assembled into a tracklist keyed by track number; the playlist then sums the
 * track times, tallies the genres and projects the tracklist onto chosen
 * columns.
 *
 * A record (one track) is a PHP array from column name to field text, and the
 * tracklist a PHP array from track key to record, both as in PhpArrays.
 */
module Playlists {
  import opened Outcomes
  import opened ByteStrings
  import opened PhpArrays

  // The column names the playlist looks up.
  const TRACK_NUMBER: string := "#"
  const TIME: string := "Time"
  const GENRE: string := "Genre"
  /** The genre name given to a track whose genre is empty. */
  const UNKNOWN_GENRE: string := "Unknown"

  /** The fields of one line of the export. */
  type Row = seq<string>
  /** One track: column name to field text. */
  type Record = seq<(string, string)>

  /**
   * The key of a track: its position when the header has no track-number
   * column (rows are appended), or the text of its track-number field.
   */
  datatype TrackKey = Position(index: nat) | Number(text: string)

  type Tracklist = seq<(TrackKey, Record)>

  // ---------------------------------------------------------------------
  // Cleaning the fields

  /** The bytes stripInvalidCharacters removes: control bytes, DEL, 0xFE and 0xFF. */
  predicate InvalidByte(c: char) {
    c < ' ' || c == '\U{7F}' || c == '\U{FE}' || c == '\U{FF}'
  }

  /** A text without any of those bytes. */
  predicate Clean(s: string) {
    forall i :: 0 <= i < |s| ==> !InvalidByte(s[i])
  }

  /** stripInvalidCharacters: every invalid byte is removed, the others are kept in order. */
  function StripInvalidCharacters(s: string): (r: string)
    ensures Clean(r) && |r| <= |s|
  {
    if s == [] then []
    else (if InvalidByte(s[0]) then [] else [s[0]]) + StripInvalidCharacters(s[1..])
  }

  /** array_walk with stripInvalidCharacters over the fields of a row. */
  function StripRow(row: Row): (r: Row)
    ensures |r| == |row| && forall i :: 0 <= i < |row| ==> r[i] == StripInvalidCharacters(row[i])
  {
    seq(|row|, i requires 0 <= i < |row| => StripInvalidCharacters(row[i]))
  }

  // ---------------------------------------------------------------------
  // Assembling the tracklist

  /** The last position of a column name in the header, as the header loop leaves it. */
  function LastIndex(header: Row, name: string): (r: Option<nat>)
    ensures r.Some? ==> r.value < |header| && header[r.value] == name
    ensures r.Some? ==> forall j :: r.value < j < |header| ==> header[j] != name
    ensures r.None? <==> name !in header
  {
    if header == [] then None
    else if header[|header| - 1] == name then Some(|header| - 1)
    else LastIndex(header[..|header| - 1], name)
  }

  /** array_combine: each column name gets the field at its position; a repeated name keeps the last. */
  function Combine(columns: Row, row: Row): (r: Record)
    requires |columns| == |row|
    ensures |r| <= |columns|
  {
    if columns == [] then []
    else
      var n := |columns| - 1;
      Put(Combine(columns[..n], row[..n]), columns[n], row[n])
  }

  /** Each column name is set to the field under its last occurrence in the header, and nothing else is set. */
  lemma {:induction false} CombineGet(columns: Row, row: Row, c: string)
    requires |columns| == |row|
    ensures Get(Combine(columns, row), c) == if c in columns then Some(row[LastIndex(columns, c).value]) else None
  {
    if columns != [] {
      var n := |columns| - 1;
      var rest := Combine(columns[..n], row[..n]);
      assert columns == columns[..n] + [columns[n]];
      if columns[n] == c {
        PutGet(rest, c, row[n]);
      } else {
        PutOther(rest, columns[n], row[n], c);
        CombineGet(columns[..n], row[..n], c);
        if c in columns[..n] {
          assert row[..n][LastIndex(columns[..n], c).value] == row[LastIndex(columns[..n], c).value];
        }
      }
    }
  }

  /** array_combine never produces a name twice. */
  lemma {:induction false} CombineDistinct(columns: Row, row: Row)
    requires |columns| == |row|
    ensures DistinctKeys(Combine(columns, row))
  {
    if columns != [] {
      var n := |columns| - 1;
      CombineDistinct(columns[..n], row[..n]);
      PutDistinct(Combine(columns[..n], row[..n]), columns[n], row[n]);
    }
  }

  /** The record of a row is shaped by the header. */
  lemma CombineShaped(columns: Row, row: Row)
    requires |columns| == |row|
    ensures Shaped(Combine(columns, row), columns)
  {
    CombineDistinct(columns, row);
    forall c | c in columns ensures HasKey(Combine(columns, row), c) {
      CombineGet(columns, row, c);
    }
  }

  /**
   * One line after the header, cleaned: a line with another field count is
   * skipped; without a track-number column the track is appended; otherwise it
   * is stored under its track number, replacing a track with the same number.
   */
  function AddRow(tracks: Tracklist, header: Row, row: Row): Tracklist {
    var fields := StripRow(row);
    if |fields| != |header| then tracks
    else
      match LastIndex(header, TRACK_NUMBER)
      case None => tracks + [(Position(|tracks|), Combine(header, fields))]
      case Some(index) => Put(tracks, Number(fields[index]), Combine(header, fields))
  }

  /** The tracklist built from the lines after the header, in order. */
  function Tracks(header: Row, body: seq<Row>): Tracklist {
    if body == [] then []
    else AddRow(Tracks(header, body[..|body| - 1]), header, body[|body| - 1])
  }

  /** The cleaned header, or no columns for an empty export. */
  function Header(rows: seq<Row>): Row {
    if rows == [] then [] else StripRow(rows[0])
  }

  /** The tracklist of an export: the first line is the header, the others are tracks. */
  function Assemble(rows: seq<Row>): Tracklist {
    if rows == [] then [] else Tracks(Header(rows), rows[1..])
  }

  /** A record of a tracklist with these columns: distinct names, and every column present. */
  predicate Shaped(record: Record, columns: Row) {
    DistinctKeys(record) && forall c :: c in columns ==> HasKey(record, c)
  }

  /** Without a track-number column, the keys are the positions 0, 1, 2, ... */
  predicate Positional(tracks: Tracklist) {
    forall i :: 0 <= i < |tracks| ==> tracks[i].0 == Position(i)
  }

  /** What every assembled tracklist satisfies. */
  predicate WellFormed(tracks: Tracklist, header: Row) {
    && DistinctKeys(tracks)
    && (forall i :: 0 <= i < |tracks| ==> Shaped(tracks[i].1, header))
    && (LastIndex(header, TRACK_NUMBER).None? ==> Positional(tracks))
  }

  lemma {:induction false} TracksWellFormed(header: Row, body: seq<Row>)
    ensures WellFormed(Tracks(header, body), header)
  {
    if body != [] {
      var before := Tracks(header, body[..|body| - 1]);
      TracksWellFormed(header, body[..|body| - 1]);
      AddRowWellFormed(before, header, body[|body| - 1]);
    }
  }

  lemma AddRowWellFormed(tracks: Tracklist, header: Row, row: Row)
    requires WellFormed(tracks, header)
    ensures WellFormed(AddRow(tracks, header, row), header)
  {
    var fields := StripRow(row);
    if |fields| == |header| {
      var record := Combine(header, fields);
      CombineShaped(header, fields);
      match LastIndex(header, TRACK_NUMBER)
      case None => {
        var r := tracks + [(Position(|tracks|), record)];
        assert r[|tracks|] == (Position(|tracks|), record);
        assert forall i :: 0 <= i < |tracks| ==> r[i] == tracks[i];
      }
      case Some(index) => {
        var key := Number(fields[index]);
        var r := Put(tracks, key, record);
        PutOrder(tracks, key, record);
        PutDistinct(tracks, key, record);
        forall i | 0 <= i < |r| ensures Shaped(r[i].1, header) {
          PutEntry(tracks, key, record, i);
        }
      }
    }
  }

  /** Each pair of an assignment's result is the new pair or one of the old ones. */
  lemma {:induction false} PutEntry<K, V>(a: seq<(K, V)>, k: K, v: V, i: nat)
    requires i < |Put(a, k, v)|
    ensures Put(a, k, v)[i] == (k, v) || (i < |a| && Put(a, k, v)[i] == a[i])
  {
    if a != [] && a[0].0 != k && i > 0 {
      PutEntry(a[1..], k, v, i - 1);
    }
  }

  /** The loop over the header that remembers the last position of the track-number column. */
  method TrackNumberColumn(header: Row) returns (index: Option<nat>)
    ensures index == LastIndex(header, TRACK_NUMBER)
  {
    index := None;
    var i := 0;
    while i < |header|
      invariant 0 <= i <= |header|
      invariant index == LastIndex(header[..i], TRACK_NUMBER)
    {
      if header[i] == TRACK_NUMBER {
        index := Some(i);
      }
      assert header[..i + 1][..i] == header[..i];
      i := i + 1;
    }
    assert header[..i] == header;
  }

  /** One more line of the export adds one more row to the tracklist. */
  lemma TracksStep(header: Row, rows: seq<Row>, k: nat)
    requires 1 <= k < |rows|
    ensures Tracks(header, rows[1..k + 1]) == AddRow(Tracks(header, rows[1..k]), header, rows[k])
  {
    assert rows[1..k + 1][..k - 1] == rows[1..k];
  }

  /** `$track[$name]` as the loops read it: an unset column reads as the empty text. */
  function Field(record: Record, name: string): string {
    match Get(record, name)
    case None => ""
    case Some(text) => text
  }

  // ---------------------------------------------------------------------
  // The playing time

  /** Hours, minutes and seconds: the time of one track, or the running sum. */
  datatype Clock = Clock(hours: nat, minutes: nat, seconds: nat)

  /** The number of seconds a clock stands for. */
  function Seconds(c: Clock): nat {
    3600 * c.hours + 60 * c.minutes + c.seconds
  }

  /**
   * The number `+=` reads from one piece of a time field. The pieces of a
   * Rekordbox time are digit strings; any other piece counts 0 here.
   */
  function PieceValue(piece: string): nat {
    if IsDigits(piece) then DigitsValue(piece) else 0
  }

  /**
   * The time of one track from its field: split at the colons, the last piece
   * is the seconds, the one before the minutes, the one before that the hours;
   * a missing piece counts 0.
   */
  function TimeFields(text: string): Clock {
    var time := Explode(text, ':');
    var n := |time|;
    Clock(if n >= 3 then PieceValue(time[n - 3]) else 0,
          if n >= 2 then PieceValue(time[n - 2]) else 0,
          PieceValue(time[n - 1]))
  }

  /**
   * One step of getTime's loop: the pieces are added, then 60 or more minutes
   * carry one hour, then 60 or more seconds carry one minute.
   */
  function AddTrack(sum: Clock, track: Clock): Clock {
    var hours := sum.hours + track.hours;
    var minutes := sum.minutes + track.minutes;
    var seconds := sum.seconds + track.seconds;
    var carried := if minutes > 59 then Clock(hours + 1, minutes % 60, seconds) else Clock(hours, minutes, seconds);
    if seconds > 59 then Clock(carried.hours, carried.minutes + 1, seconds % 60) else carried
  }

  /** The clock getTime returns for these tracks, summed in tracklist order. */
  function SumTime(tracks: Tracklist): Clock
  {
    if tracks == [] then Clock(0, 0, 0)
    else
      var n := |tracks| - 1;
      AddTrack(SumTime(tracks[..n]), TimeFields(Field(tracks[n].1, TIME)))
  }

  lemma SumTimeStep(tracks: Tracklist, i: nat)
    requires i < |tracks|
    ensures SumTime(tracks[..i + 1]) == AddTrack(SumTime(tracks[..i]), TimeFields(Field(tracks[i].1, TIME)))
  {
    assert tracks[..i + 1][..i] == tracks[..i];
  }

  // ---------------------------------------------------------------------
  // The genre statistics

  /** PHP's `empty` on a field text. */
  predicate Empty(text: string) {
    text == "" || text == "0"
  }

  /** The genre name a track is counted under. */
  function GenreName(record: Record): string {
    var genre := Field(record, GENRE);
    if Empty(genre) then UNKNOWN_GENRE else genre
  }

  /** The normalised genre, free of spaces and capitals, that the tally is keyed by. */
  function GenreKey(name: string): string {
    Lower(RemoveAll(name, ' '))
  }

  /** One tally entry: the last spelling of the genre met and its number of tracks. */
  datatype GenreStat = GenreStat(name: string, count: nat)

  type Tally = seq<(string, GenreStat)>

  /** One step of getGenres' loop. */
  function Count(tally: Tally, record: Record): Tally {
    var name := GenreName(record);
    var key := GenreKey(name);
    var count := match Get(tally, key) case None => 1 case Some(stat) => stat.count + 1;
    Put(tally, key, GenreStat(name, count))
  }

  /** The tally getGenres builds before it sorts. */
  function TallyOf(tracks: Tracklist): Tally {
    if tracks == [] then []
    else Count(TallyOf(tracks[..|tracks| - 1]), tracks[|tracks| - 1].1)
  }

  /** One pass of getGenres' loop adds the next track to the tally. */
  lemma TallyStep(tracks: Tracklist, i: nat)
    requires i < |tracks|
    ensures TallyOf(tracks[..i + 1]) == Count(TallyOf(tracks[..i]), tracks[i].1)
  {
    assert tracks[..i + 1][..i] == tracks[..i];
  }

  /** The count the loop computes is the one Count stores. */
  lemma CountStep(tally: Tally, record: Record, count: nat)
    requires var key := GenreKey(GenreName(record)); count == if Get(tally, key).None? then 1 else Get(tally, key).value.count + 1
    ensures Count(tally, record) == Put(tally, GenreKey(GenreName(record)), GenreStat(GenreName(record), count))
  {
  }

  /** Places an entry before the first entry with a count no larger: later equal counts stay behind it. */
  function InsertByCount(entry: (string, GenreStat), sorted: Tally): (r: Tally)
    ensures |r| == |sorted| + 1
  {
    if sorted == [] || entry.1.count >= sorted[0].1.count then [entry] + sorted
    else [sorted[0]] + InsertByCount(entry, sorted[1..])
  }

  /** uasort by count, largest first, equal counts in their original order. */
  function SortByCount(tally: Tally): (r: Tally)
    ensures |r| == |tally|
  {
    if tally == [] then [] else InsertByCount(tally[0], SortByCount(tally[1..]))
  }

  // ---------------------------------------------------------------------
  // Keeping chosen columns

  /** `$recordset[$key]`, an empty record while it is unset. */
  function RecordAt(recordset: Tracklist, key: TrackKey): Record {
    match Get(recordset, key)
    case None => []
    case Some(record) => record
  }

  /** The inner loop of limitRecordset over one track's properties, in order. */
  function LimitProperties(recordset: Tracklist, key: TrackKey, properties: Record, columns: seq<string>): Tracklist {
    if properties == [] then recordset
    else
      var n := |properties| - 1;
      var before := LimitProperties(recordset, key, properties[..n], columns);
      var (name, property) := properties[n];
      if name in columns then Put(before, key, Put(RecordAt(before, key), name, property)) else before
  }

  /** The recordset limitRecordset builds from these tracks. */
  function Limit(tracks: Tracklist, columns: seq<string>): Tracklist {
    if tracks == [] then []
    else
      var n := |tracks| - 1;
      LimitProperties(Limit(tracks[..n], columns), tracks[n].0, tracks[n].1, columns)
  }

  /** The properties of a record whose names are chosen, in their order. */
  function Keep(record: Record, columns: seq<string>): (r: Record)
    ensures |r| <= |record|
  {
    if record == [] then []
    else
      var n := |record| - 1;
      Keep(record[..n], columns) + (if record[n].0 in columns then [record[n]] else [])
  }

  /** Each track reduced to its chosen properties; a track left with none is dropped. */
  function Project(tracks: Tracklist, columns: seq<string>): (r: Tracklist)
    ensures |r| <= |tracks|
  {
    if tracks == [] then []
    else
      var n := |tracks| - 1;
      var kept := Keep(tracks[n].1, columns);
      Project(tracks[..n], columns) + (if kept == [] then [] else [(tracks[n].0, kept)])
  }

  // ---------------------------------------------------------------------
  // The playlist

  class Playlist {
    /** The cleaned header line. */
    var columns: Row
    var tracklist: Tracklist

    ghost predicate Valid()
      reads this
    {
      WellFormed(tracklist, columns)
    }

    /**
     * The constructor's reading loop over the lines of the export: the first
     * line (row index 0) becomes the columns and fixes the track-number column,
     * every later line is added to the tracklist. Opening and reading the file
     * is not modelled: the lines are given.
     */
    constructor (rows: seq<Row>)
      ensures Valid()
      ensures columns == Header(rows) && tracklist == Assemble(rows)
    {
      // The header and the tracklist are built in locals and stored at the end.
      var header: Row := [];
      var rowIndex := 0;
      var tracks: Tracklist := [];
      var trackNumberIndex: Option<nat> := None;
      while rowIndex < |rows|
        invariant 0 <= rowIndex <= |rows|
        invariant rowIndex == 0 ==> header == [] && tracks == []
        invariant rowIndex > 0 ==> header == Header(rows) && trackNumberIndex == LastIndex(header, TRACK_NUMBER)
        invariant rowIndex > 0 ==> tracks == Tracks(header, rows[1..rowIndex])
      {
        var row := StripRow(rows[rowIndex]);
        var first := rowIndex == 0;
        rowIndex := rowIndex + 1;
        if first {
          header := row;
          trackNumberIndex := TrackNumberColumn(row);
          assert rows[1..rowIndex] == [];
          continue;
        }
        TracksStep(header, rows, rowIndex - 1);
        if |row| != |header| {
          continue;
        }
        if trackNumberIndex.None? {
          tracks := tracks + [(Position(|tracks|), Combine(header, row))];
          continue;
        }
        tracks := Put(tracks, Number(row[trackNumberIndex.value]), Combine(header, row));
      }
      columns := header;
      tracklist := tracks;
      if rows != [] {
        assert rows[1..rowIndex] == rows[1..];
        TracksWellFormed(header, rows[1..]);
      }
    }

    /** getTrackCount */
    function TrackCount(): (r: nat)
      reads this
      ensures r == |tracklist|
    {
      |tracklist|
    }

    /** getTime: the sum of the track times, carried as the loop carries it. */
    method GetTime() returns (clock: Clock)
      requires TIME in columns
      ensures clock == SumTime(tracklist)
    {
      var hours: nat, minutes: nat, seconds: nat := 0, 0, 0;
      var i := 0;
      while i < |tracklist|
        invariant 0 <= i <= |tracklist|
        invariant Clock(hours, minutes, seconds) == SumTime(tracklist[..i])
      {
        var text := Field(tracklist[i].1, TIME);
        var time := Explode(text, ':');
        var segments := |time|;
        ghost var before := Clock(hours, minutes, seconds);
        ghost var track := TimeFields(text);
        hours := hours + if segments >= 3 then PieceValue(time[segments - 3]) else 0;
        minutes := minutes + if segments >= 2 then PieceValue(time[segments - 2]) else 0;
        seconds := seconds + PieceValue(time[segments - 1]);
        assert hours == before.hours + track.hours && minutes == before.minutes + track.minutes;
        assert seconds == before.seconds + track.seconds;
        if minutes > 59 {
          hours := hours + 1;
          minutes := minutes % 60;
        }
        if seconds > 59 {
          minutes := minutes + 1;
          seconds := seconds % 60;
        }
        assert Clock(hours, minutes, seconds) == AddTrack(before, track);
        SumTimeStep(tracklist, i);
        i := i + 1;
      }
      assert tracklist[..i] == tracklist;
      clock := Clock(hours, minutes, seconds);
    }

    /** getGenres without the percentages: the tally by normalised genre, largest count first. */
    method GetGenres() returns (genres: Tally)
      requires GENRE in columns
      ensures genres == SortByCount(TallyOf(tracklist))
    {
      var tally: Tally := [];
      var i := 0;
      while i < |tracklist|
        invariant 0 <= i <= |tracklist|
        invariant tally == TallyOf(tracklist[..i])
      {
        var track := tracklist[i].1;
        var name := GenreName(track);
        var key := GenreKey(name);
        var count := if Get(tally, key).None? then 1 else Get(tally, key).value.count + 1;
        CountStep(tally, track, count);
        TallyStep(tracklist, i);
        tally := Put(tally, key, GenreStat(name, count));
        i := i + 1;
      }
      assert tracklist[..i] == tracklist;
      genres := SortByCount(tally);
    }

    /** limitRecordset: every track's properties whose names are among the columns. */
    method LimitRecordset(columns: seq<string>) returns (recordset: Tracklist)
      ensures recordset == Limit(tracklist, columns)
    {
      recordset := [];
      var i := 0;
      while i < |tracklist|
        invariant 0 <= i <= |tracklist|
        invariant recordset == Limit(tracklist[..i], columns)
      {
        var (trackIndex, track) := tracklist[i];
        var j := 0;
        while j < |track|
          invariant 0 <= j <= |track|
          invariant recordset == LimitProperties(Limit(tracklist[..i], columns), trackIndex, track[..j], columns)
        {
          var (propertyName, property) := track[j];
          if propertyName in columns {
            recordset := Put(recordset, trackIndex, Put(RecordAt(recordset, trackIndex), propertyName, property));
          }
          assert track[..j + 1][..j] == track[..j];
          j := j + 1;
        }
        assert track[..j] == track;
        assert tracklist[..i + 1][..i] == tracklist[..i];
        i := i + 1;
      }
      assert tracklist[..i] == tracklist;
    }

    /**
     * getTracklist: the whole tracklist when no columns are chosen (a null or
     * empty list), otherwise the limited recordset.
     */
    method GetTracklist(columns: seq<string>) returns (tracks: Tracklist)
      ensures columns == [] ==> tracks == tracklist
      ensures columns != [] ==> tracks == Limit(tracklist, columns)
    {
      tracks := tracklist;
      if columns != [] {
        tracks := LimitRecordset(columns);
      }
    }
  }
}
