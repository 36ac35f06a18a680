/** A loaded recording: one row per accelerometer sample, a device-relative
    timestamp and three axis readings. Loading rewrites the timestamp column
    in place so that it holds absolute times. */
module Recording {
  import opened Wrappers
  import opened RecordingName

  /** What an operation of the viewer can fail with. */
  datatype Error =
    | NoRecording            // a figure was asked of a recording that was never loaded
    | NoSamples              // the first or last sample of an empty recording was read
    | NoSelection            // the handler used a selection range that the view did not supply
    | BadName(reason: ParseError) // the recording name is not six integer fields
    | BadDate                // the six fields are not a calendar date and time
    | MissingFile            // the acceleration table could not be read
    | NotComparable          // a saved bound was compared with timestamps never converted to datetimes

  /** One line of the acceleration table. */
  datatype Sample = Sample(timestamp: int, x: real, y: real, z: real)

  /** Every timestamp moved by `delta` (a vectorised column update). */
  function Shift(ts: seq<int>, delta: int): (r: seq<int>)
    ensures |r| == |ts|
    ensures forall i :: 0 <= i < |ts| ==> r[i] == ts[i] + delta
    ensures forall i, j :: 0 <= i < |ts| && 0 <= j < |ts| ==> r[j] - r[i] == ts[j] - ts[i]
  {
    seq(|ts|, i requires 0 <= i < |ts| => ts[i] + delta)
  }

  /** The timestamps rebased so that the first one is `start` and every
      gap between samples is what it was. */
  function Rebase(ts: seq<int>, start: int): (r: seq<int>)
    requires |ts| > 0
    ensures |r| == |ts| && r[0] == start
    ensures forall i :: 0 <= i < |ts| ==> r[i] - r[0] == ts[i] - ts[0]
  {
    seq(|ts|, i requires 0 <= i < |ts| => ts[i] - ts[0] + start)
  }

  /** The first sample lands exactly on the start instant, and the length is kept. */
  lemma RebaseFirst(ts: seq<int>, start: int)
    requires |ts| > 0
    ensures |Rebase(ts, start)| == |ts| && Rebase(ts, start)[0] == start
  {
  }

  /** Consecutive differences, and so every difference, are preserved. */
  lemma RebaseDifferences(ts: seq<int>, start: int)
    requires |ts| > 0
    ensures forall i :: 0 <= i < |ts| - 1 ==>
      Rebase(ts, start)[i + 1] - Rebase(ts, start)[i] == ts[i + 1] - ts[i]
  {
  }

  /** Rebasing is determined by those two facts: any column of the same
      length that starts at `start` and keeps every consecutive gap is the
      rebased column. */
  lemma {:induction false} RebaseUnique(ts: seq<int>, start: int, r: seq<int>)
    requires |ts| > 0 && |r| == |ts| && r[0] == start
    requires forall i :: 0 <= i < |ts| - 1 ==> r[i + 1] - r[i] == ts[i + 1] - ts[i]
    ensures r == Rebase(ts, start)
  {
    var b := Rebase(ts, start);
    var k := 0;
    while k < |ts|
      invariant 0 <= k <= |ts|
      invariant forall i :: 0 <= i < k ==> r[i] == b[i]
    {
      if k > 0 {
        assert r[k] - r[k - 1] == ts[k] - ts[k - 1];
      }
      k := k + 1;
    }
  }

  /** Subtracting the start instant recovers the device-relative times
      shifted to begin at zero. */
  lemma RebaseRecovers(ts: seq<int>, start: int)
    requires |ts| > 0
    ensures Shift(Rebase(ts, start), -start) == Shift(ts, -ts[0])
  {
  }

  /** Rebasing an already rebased column onto a new start is the same as
      rebasing the original column onto it. */
  lemma RebaseTwice(ts: seq<int>, a: int, b: int)
    requires |ts| > 0
    ensures Rebase(Rebase(ts, a), b) == Rebase(ts, b)
  {
  }

  /** A column of the table: one entry per row. */
  function Column<T>(rows: seq<Sample>, f: Sample -> T): (c: seq<T>)
    ensures |c| == |rows|
  {
    seq(|rows|, i requires 0 <= i < |rows| => f(rows[i]))
  }

  /** The timestamp column as read from the file. */
  function Timestamps(rows: seq<Sample>): seq<int> {
    Column(rows, (s: Sample) => s.timestamp)
  }

  /** The loaded table, with the columns the viewer reads and writes.
      `originalTimestamp` is the side column added while rebasing, and
      `datetimes` records whether the timestamp column was converted to
      datetimes, the last step of rebasing. */
  class Acceleration {
    var timestamp: seq<int>
    var datetimes: bool
    var originalTimestamp: Option<seq<int>>
    var x: seq<real>
    var y: seq<real>
    var z: seq<real>

    /** All columns have one entry per sample. */
    ghost predicate Valid()
      reads this
    {
      && |x| == |timestamp| && |y| == |timestamp| && |z| == |timestamp|
      && (originalTimestamp.Some? ==> |originalTimestamp.value| == |timestamp|)
    }

    /** The table as read from the recording's file. */
    constructor (rows: seq<Sample>)
      ensures Valid()
      ensures timestamp == Timestamps(rows) && originalTimestamp == None && !datetimes
      ensures |x| == |rows| && forall i :: 0 <= i < |rows| ==>
        && timestamp[i] == rows[i].timestamp
        && x[i] == rows[i].x && y[i] == rows[i].y && z[i] == rows[i].z
    {
      timestamp := Timestamps(rows);
      datetimes := false;
      originalTimestamp := None;
      x := Column(rows, (s: Sample) => s.x);
      y := Column(rows, (s: Sample) => s.y);
      z := Column(rows, (s: Sample) => s.z);
    }

    /** Turn the device-relative timestamps into absolute ones, given the
        recording's name and the conversion of its start time to an epoch
        (`None` when the fields are not a valid date and time). The steps
        run in the source's order and a failing step leaves the earlier
        ones done: the name is parsed first, then the original column is
        saved, then the first timestamp is subtracted (an empty table fails
        here), then the start epoch is computed and added, and last the
        column is converted to datetimes. */
    method UpdateTimestamps(name: string, toEpoch: StartTime -> Option<int>) returns (r: Outcome<Error>)
      requires Valid()
      modifies this
      ensures Valid()
      ensures x == old(x) && y == old(y) && z == old(z)
      ensures datetimes == (r.Pass? || old(datetimes))
      ensures ParseRecordingName(name).Failure? ==>
        && r == Fail(BadName(ParseRecordingName(name).error))
        && timestamp == old(timestamp) && originalTimestamp == old(originalTimestamp)
      ensures ParseRecordingName(name).Success? ==> originalTimestamp == Some(old(timestamp))
      ensures ParseRecordingName(name).Success? && |old(timestamp)| == 0 ==>
        r == Fail(NoSamples) && timestamp == old(timestamp)
      ensures ParseRecordingName(name).Success? && |old(timestamp)| > 0 ==>
        match toEpoch(ParseRecordingName(name).value)
        case None => r == Fail(BadDate) && timestamp == Rebase(old(timestamp), 0)
        case Some(epoch) => r == Pass && timestamp == Rebase(old(timestamp), epoch)
    {
      var parsed := ParseRecordingName(name);
      if parsed.Failure? {
        return Fail(BadName(parsed.error));
      }
      originalTimestamp := Some(timestamp);
      if |timestamp| == 0 {
        return Fail(NoSamples);
      }
      ghost var before := timestamp;
      timestamp := Shift(timestamp, -timestamp[0]);
      assert timestamp == Rebase(before, 0);
      var epoch := toEpoch(parsed.value);
      if epoch.None? {
        return Fail(BadDate);
      }
      timestamp := Shift(timestamp, epoch.value);
      assert timestamp == Rebase(before, epoch.value);
      datetimes := true;
      r := Pass;
    }
  }
}
