/** The labelling session behind the viewer's buttons: the saved regions and
    smoking labels of the selected project, the "restrict view to the
    current recording" flag and the loaded recording, together with one
    method per user action. Each action that changes the session redraws
    the figure from the whole new state. */
module Viewer {
  import opened Wrappers
  import opened Intervals
  import opened RecordingName
  import opened Recording
  import opened Figures

  /** What a callback hands back to the chart. */
  datatype Reply =
    | Redraw(figure: Figure)  // a figure built from the current state
    | BlankFigure             // an empty figure
    | NoReply                 // the callback fell through and returned nothing
    | Raised(error: Error)    // the callback raised before it had a figure

  function ReplyOf(r: Result<Figure, Error>): Reply {
    match r
    case Success(f) => Redraw(f)
    case Failure(e) => Raised(e)
  }

  /** An entry of the recording drop-down. */
  datatype DropdownOption = DropdownOption(title: string, value: string)  // Dash's `label` and `value` keys

  /** The drop-down entries for a project's recordings, each shown under its own name. */
  function RecordingOptions(recordings: seq<string>): (r: seq<DropdownOption>)
    ensures |r| == |recordings|
    ensures forall i :: 0 <= i < |r| ==> r[i].title == recordings[i] && r[i].value == recordings[i]
  {
    seq(|recordings|, i requires 0 <= i < |recordings| => DropdownOption(recordings[i], recordings[i]))
  }

  /** The recording selected by default: the first option, or none at all. */
  function SetRecordingValue(options: seq<DropdownOption>): (r: Option<string>)
    ensures r.None? <==> |options| == 0
    ensures r.Some? ==> r.value == options[0].value
  {
    if |options| > 0 then Some(options[0].value) else None
  }

  /** After a project is selected, its first recording is shown. */
  lemma DefaultRecordingIsFirst(recordings: seq<string>)
    ensures SetRecordingValue(RecordingOptions(recordings))
      == if |recordings| == 0 then None else Some(recordings[0])
  {
  }

  /** The interval a new region gets: the selection when there is one,
      otherwise the whole recording from its first to its last timestamp
      (none when the recording is empty). */
  function RegionBounds(selection: Option<Selection>, ts: seq<int>): (r: Option<Interval>)
    ensures selection.Some? ==> r == Some(Interval(selection.value.start, selection.value.end))
    ensures selection.None? ==> (r.Some? <==> |ts| > 0)
    ensures selection.None? && r.Some? ==> r.value.start == ts[0] && r.value.end == ts[|ts| - 1]
  {
    match selection
    case Some(sel) => Some(Interval(sel.start, sel.end))
    case None => if |ts| > 0 then Some(Interval(ts[0], ts[|ts| - 1])) else None
  }

  /** A drop-down value that selects something: Python's truth test on
      `None` or a string. */
  predicate Chosen(v: Option<string>) {
    v.Some? && v.value != ""
  }

  class Session {
    var regions: seq<Interval>
    var labels: seq<Interval>
    var restrict: bool
    var acceleration: Acceleration?

    ghost predicate Valid()
      reads this, acceleration
    {
      acceleration != null ==> acceleration.Valid()
    }

    /** The state at start-up: view restricted, nothing loaded. */
    constructor ()
      ensures Valid()
      ensures regions == [] && labels == [] && restrict && acceleration == null
    {
      regions, labels, restrict, acceleration := [], [], true, null;
    }

    /** The figure of the current state; without a loaded recording there is none. */
    function CurrentFigure(): (r: Result<Figure, Error>)
      reads this, acceleration
      ensures r.Failure? <==>
        || acceleration == null
        || (restrict && (regions != [] || labels != [])
            && (|acceleration.timestamp| == 0 || !acceleration.datetimes))
      ensures r.Failure? ==>
                r.error == if acceleration == null then NoRecording
                           else if |acceleration.timestamp| == 0 then NoSamples
                           else NotComparable
    {
      if acceleration == null then Failure(NoRecording)
      else FigureOf(acceleration.timestamp, acceleration.datetimes, acceleration.x, acceleration.y, acceleration.z,
                    regions, labels, restrict)
    }

    /** Build the figure: the three decimated traces, then one band per
        drawn region and one per drawn label, in stored order. */
    method CreateFigure() returns (r: Result<Figure, Error>)
      ensures r == CurrentFigure()
    {
      if acceleration == null {
        return Failure(NoRecording);
      }
      var ts := acceleration.timestamp;
      if restrict && (|regions| > 0 || |labels| > 0) {
        // the first band's overlap test reads the first timestamp and compares a bound with it
        if |ts| == 0 {
          return Failure(NoSamples);
        }
        if !acceleration.datetimes {
          return Failure(NotComparable);
        }
      }
      var first := if |ts| > 0 then ts[0] else 0;
      var last := if |ts| > 0 then ts[|ts| - 1] else 0;
      var regionBands := DrawBands(RegionBand, regions, restrict, first, last);
      var labelBands := DrawBands(LabelBand, labels, restrict, first, last);
      var times := Decimate(ts);
      r := Success(Figure(Trace(times, Decimate(acceleration.x)), Trace(times, Decimate(acceleration.y)),
                          Trace(times, Decimate(acceleration.z)), regionBands + labelBands));
    }

    /** Selecting a project: its saved regions and labels replace the
        session's (an absent file gives an empty list) and the drop-down
        lists its recordings, already sorted by name. */
    method LoadProject(savedRegions: Option<seq<Interval>>, savedLabels: Option<seq<Interval>>,
                       recordings: seq<string>) returns (options: seq<DropdownOption>)
      requires Valid()
      modifies this
      ensures Valid()
      ensures regions == savedRegions.GetOr([]) && labels == savedLabels.GetOr([])
      ensures restrict == old(restrict) && acceleration == old(acceleration)
      ensures options == RecordingOptions(recordings)
    {
      regions := savedRegions.GetOr([]);
      labels := savedLabels.GetOr([]);
      options := RecordingOptions(recordings);
    }

    /** Showing a recording: its table (`None` when the file cannot be read)
        becomes the loaded recording, its timestamps are rebased, and the
        figure is drawn. A project or recording that is not chosen (`None`
        or empty) gives a blank figure. A table that fails to rebase stays
        loaded, as far as it got. */
    method ShowRecording(project: Option<string>, recording: Option<string>, rows: Option<seq<Sample>>,
                         toEpoch: StartTime -> Option<int>) returns (reply: Reply)
      requires Valid()
      modifies this
      ensures Valid()
      ensures regions == old(regions) && labels == old(labels) && restrict == old(restrict)
      ensures !Chosen(project) || !Chosen(recording) ==> reply == BlankFigure && acceleration == old(acceleration)
      ensures Chosen(project) && Chosen(recording) && rows.None? ==>
        reply == Raised(MissingFile) && acceleration == old(acceleration)
      ensures Chosen(project) && Chosen(recording) && rows.Some? ==>
        && acceleration != null && fresh(acceleration)
        && |acceleration.x| == |rows.value|
        && (forall i :: 0 <= i < |rows.value| ==>
              acceleration.x[i] == rows.value[i].x && acceleration.y[i] == rows.value[i].y
              && acceleration.z[i] == rows.value[i].z)
        && var ts := Timestamps(rows.value);
           match ParseRecordingName(recording.value)
           case Failure(e) =>
             && reply == Raised(BadName(e)) && acceleration.timestamp == ts
             && acceleration.originalTimestamp == None && !acceleration.datetimes
           case Success(start) =>
             && acceleration.originalTimestamp == Some(ts)
             && (|ts| == 0 ==> reply == Raised(NoSamples) && acceleration.timestamp == ts && !acceleration.datetimes)
             && (|ts| > 0 ==>
                   match toEpoch(start)
                   case None =>
                     reply == Raised(BadDate) && acceleration.timestamp == Rebase(ts, 0) && !acceleration.datetimes
                   case Some(epoch) =>
                     && acceleration.timestamp == Rebase(ts, epoch) && acceleration.datetimes
                     && reply == ReplyOf(CurrentFigure()))
    {
      if !Chosen(project) || !Chosen(recording) {
        return BlankFigure;
      }
      if rows.None? {
        return Raised(MissingFile);
      }
      var table := new Acceleration(rows.value);
      acceleration := table;
      var status := table.UpdateTimestamps(recording.value, toEpoch);
      if status.Fail? {
        return Raised(status.error);
      }
      var figure := CreateFigure();
      reply := ReplyOf(figure);
    }

    /** "Write Region": append the selection, or the whole recording when
        nothing is selected, to the regions. Without a loaded recording the
        chart is blanked and nothing is written. */
    method WriteRegion(nClicks: int, selection: Option<Selection>) returns (reply: Reply)
      requires Valid()
      modifies this
      ensures Valid()
      ensures labels == old(labels) && restrict == old(restrict) && acceleration == old(acceleration)
      ensures acceleration == null ==> reply == BlankFigure && regions == old(regions)
      ensures acceleration != null && nClicks <= 0 ==> reply == NoReply && regions == old(regions)
      ensures acceleration != null && nClicks > 0 ==>
        match RegionBounds(selection, acceleration.timestamp)
        case None => reply == Raised(NoSamples) && regions == old(regions)
        case Some(iv) => regions == old(regions) + [iv] && reply == ReplyOf(CurrentFigure())
    {
      if acceleration == null {
        return BlankFigure;
      }
      if nClicks <= 0 {
        return NoReply;
      }
      var bounds := RegionBounds(selection, acceleration.timestamp);
      if bounds.None? {
        return Raised(NoSamples);
      }
      regions := regions + [bounds.value];
      var figure := CreateFigure();
      reply := ReplyOf(figure);
    }

    /** "Smoking": append the selection to the labels. There is no fallback
        to the whole recording: without a selection the handler raises
        before changing anything. */
    method AddSmokingLabel(nClicks: int, selection: Option<Selection>) returns (reply: Reply)
      requires Valid()
      modifies this
      ensures Valid()
      ensures regions == old(regions) && restrict == old(restrict) && acceleration == old(acceleration)
      ensures nClicks <= 0 ==> reply == NoReply && labels == old(labels)
      ensures nClicks > 0 && selection.None? ==> reply == Raised(NoSelection) && labels == old(labels)
      ensures nClicks > 0 && selection.Some? ==>
        && labels == old(labels) + [Interval(selection.value.start, selection.value.end)]
        && reply == ReplyOf(CurrentFigure())
    {
      if nClicks <= 0 {
        return NoReply;
      }
      if selection.None? {
        return Raised(NoSelection);
      }
      labels := labels + [Interval(selection.value.start, selection.value.end)];
      var figure := CreateFigure();
      reply := ReplyOf(figure);
    }

    /** "Delete Smoking Bout": remove the one label enclosing the selection,
        or failing that the one region enclosing it (see `AfterDelete`).
        Without a selection the filters raise as soon as they test an
        interval, before anything changes; with both lists empty they test
        none, and the figure is redrawn as it was. */
    method DeleteSmokingLabel(nClicks: int, selection: Option<Selection>) returns (reply: Reply)
      requires Valid()
      modifies this
      ensures Valid()
      ensures restrict == old(restrict) && acceleration == old(acceleration)
      ensures nClicks <= 0 || selection.None? ==> regions == old(regions) && labels == old(labels)
      ensures nClicks <= 0 ==> reply == NoReply
      ensures nClicks > 0 && selection.None? && (old(labels) != [] || old(regions) != []) ==>
        reply == Raised(NoSelection)
      ensures nClicks > 0 && selection.None? && old(labels) == [] && old(regions) == [] ==>
        reply == ReplyOf(CurrentFigure())
      ensures nClicks > 0 && selection.Some? ==>
        && Store(regions, labels) == AfterDelete(Store(old(regions), old(labels)), selection.value)
        && reply == ReplyOf(CurrentFigure())
    {
      if nClicks <= 0 {
        return NoReply;
      }
      if selection.None? {
        if labels != [] || regions != [] {
          return Raised(NoSelection);
        }
        var figure := CreateFigure();
        return ReplyOf(figure);
      }
      var sel := selection.value;
      var labelsToDelete := Candidates(labels, sel);
      var regionsToDelete := Candidates(regions, sel);
      ghost var after := AfterDelete(Store(regions, labels), sel);
      if |labelsToDelete| == 1 {
        assert labelsToDelete[0] in labelsToDelete;
        labels := RemoveFirst(labels, labelsToDelete[0]);
      } else if |regionsToDelete| == 1 {
        assert regionsToDelete[0] in regionsToDelete;
        regions := RemoveFirst(regions, regionsToDelete[0]);
      }
      assert Store(regions, labels) == after;
      var figure := CreateFigure();
      reply := ReplyOf(figure);
    }

    /** "Toggle View All Regions and Labels": flip the restrict flag on a
        click, then redraw whether or not it flipped. */
    method ToggleViewAll(nClicks: int) returns (reply: Reply)
      requires Valid()
      modifies this
      ensures Valid()
      ensures regions == old(regions) && labels == old(labels) && acceleration == old(acceleration)
      ensures restrict == if nClicks > 0 then !old(restrict) else old(restrict)
      ensures reply == ReplyOf(CurrentFigure())
    {
      if nClicks > 0 {
        restrict := !restrict;
      }
      var figure := CreateFigure();
      reply := ReplyOf(figure);
    }
  }

  /** Two clicks on the toggle restore the view and leave the intervals alone. */
  method ToggleTwice(s: Session, nClicks: int)
    requires s.Valid() && nClicks > 0
    modifies s
    ensures s.Valid()
    ensures s.restrict == old(s.restrict) && s.regions == old(s.regions) && s.labels == old(s.labels)
  {
    var _ := s.ToggleViewAll(nClicks);
    var _ := s.ToggleViewAll(nClicks);
  }

  /** A label written at a selection and then deleted at a narrower
      selection inside it is gone again, provided no other label enclosed
      that narrower selection. */
  method LabelThenDelete(s: Session, sel: Selection, inner: Selection)
    requires s.Valid()
    requires sel.start < inner.start && inner.end < sel.end
    requires Candidates(s.labels, inner) == []
    modifies s
    ensures s.Valid()
    ensures s.labels == old(s.labels) && s.regions == old(s.regions)
    ensures s.restrict == old(s.restrict) && s.acceleration == old(s.acceleration)
  {
    ghost var before := s.labels;
    var _ := s.AddSmokingLabel(1, Some(sel));
    var added := Interval(sel.start, sel.end);
    assert s.labels == before + [added];
    CandidatesAppend(before, added, inner);
    var k := DeleteLabelFirst(Store(s.regions, s.labels), inner);
    assert k == |before|;
    var _ := s.DeleteSmokingLabel(1, Some(inner));
    assert s.labels == (before + [added])[..k];
    assert (before + [added])[..k] == before;
  }

  /** A recording whose name does not parse stays loaded with timestamps
      never converted to datetimes; in a restricted view with a region saved,
      the next label is appended and then the redraw fails comparing the
      saved bounds with those timestamps. */
  method LabelAfterBadName(s: Session, project: string, recording: string, rows: seq<Sample>,
                           toEpoch: StartTime -> Option<int>, sel: Selection) returns (reply: Reply)
    requires s.Valid() && s.restrict && s.regions != []
    requires project != "" && recording != "" && |rows| > 0
    requires ParseRecordingName(recording).Failure?
    modifies s
    ensures s.labels == old(s.labels) + [Interval(sel.start, sel.end)]
    ensures reply == Raised(NotComparable)
  {
    var _ := s.ShowRecording(Some(project), Some(recording), Some(rows), toEpoch);
    reply := s.AddSmokingLabel(1, Some(sel));
  }
}
