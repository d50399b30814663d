/**
 * getTime's carries. The loop carries minutes into hours before it carries
 * seconds into minutes, and carries at most one unit each time. Two inputs show
 * that the clock it returns is then not a normalised time; a reading that
 * carries seconds first and carries whole units is exact for every input.
 */
module PlaylistFindings {
  import opened ByteStrings
  import opened PhpArrays
  import opened Playlists
  import opened PlaylistProperties

  /** A tracklist whose tracks have these time fields, in order. */
  function Timed(times: seq<string>): (r: Tracklist)
    ensures |r| == |times|
    ensures forall i :: 0 <= i < |times| ==> r[i] == (Position(i), [(TIME, times[i])])
  {
    seq(|times|, i requires 0 <= i < |times| => (Position(i), [(TIME, times[i])]))
  }

  lemma TimedField(times: seq<string>, i: nat)
    requires i < |times|
    ensures Field(Timed(times)[i].1, TIME) == times[i]
  {
    assert Timed(times)[i].1 == [(TIME, times[i])];
  }

  // The time fields of the examples, read.

  lemma FieldOfFullMinute()
    ensures TimeFields("59:59") == Clock(0, 59, 59)
  {
    assert "59" + ":" + "59" == "59:59";
    assert DigitsValue("59") == 59 by { assert "59"[..1] == "5"; }
    ShortField("59", "59", 59, 59);
  }

  lemma FieldOfOneSecond()
    ensures TimeFields("0:01") == Clock(0, 0, 1)
  {
    assert "0" + ":" + "01" == "0:01";
    assert DigitsValue("01") == 1 by { assert "01"[..1] == "0"; }
    ShortField("0", "01", 0, 1);
  }

  lemma FieldOfLongTrack()
    ensures TimeFields("125:00") == Clock(0, 125, 0)
  {
    assert "125" + ":" + "00" == "125:00";
    assert DigitsValue("125") == 125 by { assert "125"[..2] == "12" && "12"[..1] == "1"; }
    assert DigitsValue("00") == 0 by { assert "00"[..1] == "0"; }
    ShortField("125", "00", 125, 0);
  }

  lemma ShortField(m: string, s: string, minutes: nat, seconds: nat)
    requires IsDigits(m) && IsDigits(s) && DigitsValue(m) == minutes && DigitsValue(s) == seconds
    ensures TimeFields(m + ":" + s) == Clock(0, minutes, seconds)
  {
    TimeFieldsShort(m, s);
  }

  /**
   * As written: a track of 59:59 followed by one of 0:01 leaves the clock at
   * 0 hours, 60 minutes and 0 seconds, where one hour is meant.
   */
  lemma MinutesReachSixty()
    ensures SumTime(Timed(["59:59", "0:01"])) == Clock(0, 60, 0)
  {
    var tracks := Timed(["59:59", "0:01"]);
    FieldOfFullMinute();
    FieldOfOneSecond();
    TimedField(["59:59", "0:01"], 0);
    TimedField(["59:59", "0:01"], 1);
    assert tracks[..1][..0] == [];
    assert SumTime(tracks[..1]) == AddTrack(Clock(0, 0, 0), Clock(0, 59, 59));
    assert SumTime(tracks) == AddTrack(Clock(0, 59, 59), Clock(0, 0, 1));
  }

  /**
   * As written: one track of 125 minutes counts 1 hour and 5 minutes, an hour
   * short, because a single carry takes only 60 minutes.
   */
  lemma LongTrackLosesAnHour()
    ensures SumTime(Timed(["125:00"])) == Clock(1, 5, 0)
    ensures Seconds(SumTime(Timed(["125:00"]))) + 3600 == TotalSeconds(Timed(["125:00"]))
  {
    var tracks := Timed(["125:00"]);
    FieldOfLongTrack();
    TimedField(["125:00"], 0);
    assert tracks[..0] == [];
    assert SumTime(tracks) == AddTrack(Clock(0, 0, 0), Clock(0, 125, 0));
  }

  /** The carry getTime evidently intends: seconds into minutes, then minutes into hours, in whole units. */
  function AddTrackCarried(sum: Clock, track: Clock): Clock {
    var seconds := sum.seconds + track.seconds;
    var minutes := sum.minutes + track.minutes + seconds / 60;
    Clock(sum.hours + track.hours + minutes / 60, minutes % 60, seconds % 60)
  }

  function SumTimeCarried(tracks: Tracklist): Clock {
    if tracks == [] then Clock(0, 0, 0)
    else
      var n := |tracks| - 1;
      AddTrackCarried(SumTimeCarried(tracks[..n]), TimeFields(Field(tracks[n].1, TIME)))
  }

  /** One intended carry keeps the clock regular and its number of seconds exact. */
  lemma AddTrackCarriedExact(sum: Clock, track: Clock)
    ensures Regular(AddTrackCarried(sum, track))
    ensures Seconds(AddTrackCarried(sum, track)) == Seconds(sum) + Seconds(track)
  {
    var seconds := sum.seconds + track.seconds;
    var minutes := sum.minutes + track.minutes + seconds / 60;
    assert seconds == 60 * (seconds / 60) + seconds % 60;
    assert minutes == 60 * (minutes / 60) + minutes % 60;
  }

  /** Corrected: for every tracklist the clock is a regular time for exactly the playing time. */
  lemma {:induction false} SumTimeCarriedExact(tracks: Tracklist)
    ensures Regular(SumTimeCarried(tracks))
    ensures Seconds(SumTimeCarried(tracks)) == TotalSeconds(tracks)
  {
    if tracks != [] {
      var n := |tracks| - 1;
      SumTimeCarriedExact(tracks[..n]);
      AddTrackCarriedExact(SumTimeCarried(tracks[..n]), TimeFields(Field(tracks[n].1, TIME)));
    }
  }

  /** Where getTime is exact, the corrected carry gives the same clock up to normalisation. */
  lemma CarriedAgrees(tracks: Tracklist)
    requires RegularTimes(tracks)
    ensures Seconds(SumTimeCarried(tracks)) == Seconds(SumTime(tracks))
  {
    SumTimeCarriedExact(tracks);
    SumTimeSeconds(tracks);
  }
}
