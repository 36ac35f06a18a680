# Interval labelling in the accelerometer data viewer

This project models the core of a small labelling tool for three-axis accelerometer recordings, and proves properties of that model. An annotator opens a recording of a project and looks at its x, y and z traces. They mark time intervals as generic *regions* or as *smoking labels*, and delete them again. Everything here comes from `data_viewer.py`, once the dashboard callbacks have been stripped of their framework glue:

- **`RecordingName`**: how a recording's name `YYYY_MM_DD_hh_mm_ss` is read back into six integer fields. Every `_` becomes `-`, the name is split on `-`, and each piece goes through Python's `int`. The module has splitting and joining with round-trip lemmas, integer parsing, and a zero-padded `Format` of the naming convention. `ParseFormat` proves that every name written by that convention parses back to the start time it encodes.
- **`Recording`**: the loaded acceleration table, modelled as a class whose columns are updated in place. `UpdateTimestamps` does the same steps in the same order as the source, and a step that fails leaves the earlier steps done. First the name is parsed. Then the original column is saved. Then the first timestamp is subtracted, which raises on an empty table. Then the start epoch is added. Last, the column is converted to datetimes, which `Acceleration.datetimes` records. The rebased column is `Rebase(ts, start)`. Lemmas prove that the first sample lands on `start`, that every gap between samples is kept, that rebasing is unique with those two properties, and that subtracting `start` gives back the device-relative times shifted to zero.
- **`Intervals`**: the two ordered lists and the delete rule. `Candidates` is the delete filter. `RemoveFirst` is Python's `list.remove`. `AfterDelete` is the priority rule: a unique enclosing label is removed, otherwise a unique enclosing region, otherwise nothing.
- **`Figures`**: the figure as data. It holds three traces plotted at every 25th sample and one band per drawn interval. A band records its kind, its position in its list and its bounds. When the view is restricted, an interval is drawn exactly when it overlaps the recording's span. When it is not, every interval is drawn.
- **`Viewer`**: the `Session` class, which holds the regions, the labels, the restrict flag and the loaded recording. It has one method per callback: select a project, show a recording, write a region, add a smoking label, delete, and toggle the view. Every method states its whole new state and its reply. A reply is a redrawn figure, a blank figure, nothing, or the exception the callback raises. The module also has the default-recording choice of the drop-down, as a pure function.

Four behaviours of the code are worth stating plainly, because the model keeps them:

- **Delete filter.** The filter at `data_viewer.py:285-286` keeps an interval when the *selection lies strictly inside it*: `sel.start > iv.start && sel.end < iv.end`. It does not pick intervals that lie inside the selection. `Intervals.Encloses` models the code.
- **Adding a label without a selection.** Adding a label has no full-span fallback, unlike writing a region: without a selection it raises at line 255, reading the unset bound, before anything changes. `Viewer.Session.AddSmokingLabel` models that. Deleting without a selection raises as soon as a filter reads the unset bound for an interval; when both lists are empty no interval is tested and the figure is redrawn.
- **Redrawing a table whose rebasing failed.** Such a table stays loaded with its timestamps never converted to datetimes. In a restricted view with some interval saved, every later redraw fails, because a datetime bound cannot be compared with those timestamps (lines 64 and 77). `Figures.FigureOf` models this with its `datetimes` argument.
- **Redrawing without a recording.** Adding, deleting and toggling all call `create_figure` even when no recording is loaded. The change is made first and then the redraw raises. The model keeps this order: the new state is in place and the reply is `Raised(NoRecording)`.

## Model

| member | source | states |
|---|---|---|
| `RecordingName.ReplaceAll` | data_viewer.py:46 | every `_` becomes `-`, every other character is kept, the length is kept, and no `_` is left |
| `RecordingName.Split` | data_viewer.py:47 | splitting always gives at least one piece, and no piece contains the separator |
| `RecordingName.JoinSplit` | data_viewer.py:47 | joining the pieces of a split with the separator gives back the original name |
| `RecordingName.SplitJoin` | data_viewer.py:47 | splitting a join of separator-free pieces gives back exactly those pieces, including empty ones |
| `RecordingName.ParseInt` | data_viewer.py:47 | Python's `int` on a piece accepts exactly an optional `+` or `-` followed by one or more decimal digits; the value is the digits' value, negated after a `-` |
| `RecordingName.ParseSigned` | data_viewer.py:47 | a signed decimal rendering parses back to the number with its sign; only the `+` form can reach line 47, since a `-` has become a separator there |
| `RecordingName.Fields` | data_viewer.py:46-47 | the pieces of the name are at least one, contain no `-`, and joined with `-` give back the name with every `_` turned into `-` |
| `RecordingName.ParsePadded` | data_viewer.py:47 | a zero-padded decimal field is accepted by `int` and parses to its number |
| `RecordingName.ParseAll` | data_viewer.py:47 | the comprehension converts the pieces left to right; success gives one integer per piece, and failure names the first piece that is not an integer, all pieces before it being integers |
| `RecordingName.ParseRecordingName` | data_viewer.py:46-47 | parsing succeeds exactly when there are six pieces and all are integers, and the fields are those integers in order; otherwise it reports the first bad piece, or the wrong number of integer pieces |
| `RecordingName.ParseFormat` | data_viewer.py:45-47 | every name written as `YYYY_MM_DD_hh_mm_ss` from non-negative fields parses back to the same six fields |
| `Recording.Shift` | data_viewer.py:49-50 | every entry of the column is moved by the constant, so the length and every difference between two samples are kept |
| `Recording.Rebase` | data_viewer.py:49-50 | the rebased column has the same length, starts at the epoch, and each sample's offset from the first is what it was on the device |
| `Recording.RebaseFirst` | data_viewer.py:49-50 | after rebasing, the first sample is exactly the start epoch, and the length is unchanged |
| `Recording.RebaseDifferences` | data_viewer.py:49-50 | rebasing keeps every difference between consecutive samples |
| `Recording.RebaseUnique` | data_viewer.py:49-50 | any column of the same length that starts at the epoch and keeps every consecutive gap is the rebased column |
| `Recording.RebaseRecovers` | data_viewer.py:48-50 | subtracting the epoch from the rebased column gives the device-relative times shifted to start at zero |
| `Recording.RebaseTwice` | data_viewer.py:49-50 | rebasing a rebased column onto a new epoch is the same as rebasing the original column onto it |
| `Recording.Acceleration.constructor` | data_viewer.py:40-43 | the loaded table has one timestamp, x, y and z entry per row of the file, no saved original column, and timestamps not yet converted to datetimes |
| `Recording.Acceleration.UpdateTimestamps` | data_viewer.py:45-52 | a bad name changes nothing; otherwise the original column holds the unmodified input; an empty table fails, leaving the timestamps unchanged; an invalid date fails after the shift to zero; on success the timestamps are `Rebase(old, epoch)` and converted to datetimes, and only success converts them; the axes are unchanged |
| `Intervals.Encloses` | data_viewer.py:285-286 | a selection at exactly an interval's own bounds does not pick that interval |
| `Intervals.Candidates` | data_viewer.py:285-286 | an interval is a candidate exactly when it is in the list and the selection lies strictly inside it |
| `Intervals.CandidatesAppend` | data_viewer.py:285-286 | appending an interval appends it to the candidates exactly when it encloses the selection |
| `Intervals.IndexOf` | data_viewer.py:290 | the position found holds the element, and no earlier position does |
| `Intervals.RemoveFirst` | data_viewer.py:290 | `list.remove` drops exactly one occurrence of the element and nothing else (length and multiset) |
| `Intervals.RemoveFirstAt` | data_viewer.py:290 | the occurrence dropped is the first one, and the other elements keep their order |
| `Intervals.SingleEncloser` | data_viewer.py:285-288 | a list with exactly one candidate has exactly one position whose interval encloses the selection |
| `Intervals.UniqueCandidate` | data_viewer.py:285-293 | that position holds the single candidate, and removing the candidate's first occurrence removes that position |
| `Intervals.AfterDelete` | data_viewer.py:285-293 | a delete never lengthens a list and shortens the two together by at most one; a unique enclosing label shortens only the labels; otherwise the labels are kept; with no unique candidate of either kind nothing changes |
| `Intervals.DeleteLabelFirst` | data_viewer.py:288-290 | with exactly one enclosing label, only that label is removed and the regions are left as they are |
| `Intervals.DeleteRegionOtherwise` | data_viewer.py:291-293 | without a unique enclosing label, a unique enclosing region is removed alone and the labels are left as they are |
| `Intervals.DeleteAmbiguous` | data_viewer.py:285-293 | with zero or several candidates of each kind, nothing changes |
| `Intervals.DeleteRemovesAtMostOne` | data_viewer.py:285-293 | a delete removes at most one interval in total, adds none, and touches at most one of the two lists |
| `Intervals.DeleteKeepsOthers` | data_viewer.py:285-293 | an interval that does not enclose the selection keeps its number of occurrences in both lists |
| `Figures.Decimate` | data_viewer.py:57-59 | the plotted points are exactly the samples at positions 0, 25, 50, …, and there are `(N + 24) / 25` of them |
| `Figures.DecimateCount` | data_viewer.py:57-59 | the number of plotted points is ceil(N / 25) |
| `Figures.DecimateKeepsMultiples` | data_viewer.py:57-59 | every position that is a multiple of 25 is plotted, at place `j / 25` |
| `Figures.Overlaps` | data_viewer.py:64-65 | for proper intervals, an interval overlaps the recording exactly when the two closed ranges share a point |
| `Figures.Drawn` | data_viewer.py:63-65 | with the view unrestricted every interval is drawn; restricted, a proper interval is drawn exactly when it shares a point with the recording's span |
| `Figures.Overlays` | data_viewer.py:61-86 | every band is for an interval of the list, at its stored position, that should be drawn; bands appear in stored order |
| `Figures.DrawBands` | data_viewer.py:62-73 | the loop over one list adds exactly the bands `Overlays` describes |
| `Figures.OverlaysComplete` | data_viewer.py:63-65 | every interval that should be drawn has its band |
| `Figures.OverlaysUnrestricted` | data_viewer.py:61-86 | with the view unrestricted, every interval gets a band, in stored order |
| `Figures.FigureOf` | data_viewer.py:54-87 | building the figure fails exactly when the view is restricted, some interval is saved, and the recording is empty (the missing first sample) or its timestamps were never converted to datetimes (a bound that cannot be compared with them) |
| `Figures.FigureTraces` | data_viewer.py:56-60 | the x, y and z traces share the same plotted times; each has ceil(N / 25) points, and point `i` is sample `25 * i` of its column |
| `Figures.FigureShapes` | data_viewer.py:61-86 | a region or label gets a band exactly when the view is unrestricted or the interval overlaps `[first, last]`; all region bands come before all label bands |
| `Figures.HiddenBeforeRecording` | data_viewer.py:63-65 | for a recording spanning [1000, 2000], the interval [500, 900] gets no band when the view is restricted and gets one when it is not |
| `Viewer.RecordingOptions` | data_viewer.py:38 | there is one drop-down entry per recording, and its label and its value are both the recording's name |
| `Viewer.SetRecordingValue` | data_viewer.py:160-161 | the default recording is none exactly when there are no options, and otherwise the value of the first option |
| `Viewer.DefaultRecordingIsFirst` | data_viewer.py:153-161 | after a project is selected, the first recording in the listing is selected, or none if the project has none |
| `Viewer.RegionBounds` | data_viewer.py:206-214 | a new region spans the selection when there is one; otherwise it spans the first to the last timestamp, and there is none for an empty recording |
| `Viewer.Session.constructor` | data_viewer.py:27-126 | at start-up the view is restricted (the globals at lines 27-32), no recording is loaded (`acceleration = None` at line 126), and the interval lists are empty |
| `Viewer.Session.CurrentFigure` | data_viewer.py:54-87 | the current state has no figure exactly when no recording is loaded, or the view is restricted, some interval is saved, and the recording is empty or not converted to datetimes; the error says which |
| `Viewer.Session.CreateFigure` | data_viewer.py:54-87 | the figure is `FigureOf` the loaded recording and the current state; without a recording it fails as `create_figure(None)` does |
| `Viewer.Session.LoadProject` | data_viewer.py:132-153 | the saved regions and labels replace the session's lists, an absent file giving an empty list; the flag and the recording are unchanged; the options list the recordings |
| `Viewer.Session.ShowRecording` | data_viewer.py:169-178 | a project or recording that is `None` or empty gives a blank figure; an unreadable file changes nothing; otherwise the new table is loaded and stays loaded however far rebasing got (a bad name leaves it with no original column), converted to datetimes and redrawn only if rebasing succeeded; the intervals and the flag are unchanged |
| `Viewer.Session.WriteRegion` | data_viewer.py:196-217 | with no recording loaded, nothing is appended and the figure is blank; otherwise exactly one region, spanning the selection or the full recording, is appended at the end; an empty recording with no selection raises and appends nothing; the labels are unchanged |
| `Viewer.Session.AddSmokingLabel` | data_viewer.py:243-265 | exactly one label, spanning the selection, is appended at the end; without a selection the handler raises and changes nothing; the regions are unchanged |
| `Viewer.Session.DeleteSmokingLabel` | data_viewer.py:273-294 | with a selection, the new lists are `AfterDelete` of the old ones; without one the handler raises and changes nothing when some interval is saved, and redraws the unchanged figure when none is; the flag and the recording are unchanged |
| `Viewer.Session.ToggleViewAll` | data_viewer.py:301-310 | a click negates the restrict flag, and the intervals are unchanged; the figure is redrawn either way |
| `Viewer.ToggleTwice` | data_viewer.py:307-309 | two clicks on the toggle restore the flag and leave the intervals alone |
| `Viewer.LabelAfterBadName` | data_viewer.py:169-173 | after a recording whose name does not parse is shown, in a restricted view with a region saved, a label is appended and the redraw then fails comparing bounds with the unconverted timestamps |
| `Viewer.LabelThenDelete` | data_viewer.py:251-293 | a label just added is removed again by a delete at a narrower selection inside it, when no other label encloses that selection, and nothing else changes |

## Left out

- Dashboard layout, callback registration and dispatch on the triggering widget's id (`callback_context`) are framework glue. Each handler is modelled as triggered by its own button. The click count is a parameter, and its `n_clicks > 0` guard is kept.
- The view's `relayoutData` dictionary is reduced to an optional selection `(start, end)`. It is present exactly when both `xaxis.range` keys are.
- Scanning the data directories, creating the labelled-output directories, reading CSV files, and reading and writing `regions.json`/`labels.json` are all file-system I/O. A loaded table, a saved list and a recording listing are parameters. An absent saved file is `None`, which gives an empty list. The listing is taken as already sorted. Saving (`save_regions_and_labels`) is not part of this model, because it only writes files.
- `datetime_to_epoch` in `lib/utils.py` is a parameter `toEpoch`, because its result depends on the host's local timezone. It returns `None` where building the calendar date would raise. Its result is a float (`* 1e9`), so the real column is rounded to what a float can hold. The model keeps integers and does not capture that rounding.
- Interval bounds are integers. The source stores them as strings. The overlay test parses those strings into datetimes (lines 64 and 77). The delete filter compares the raw strings lexicographically (lines 285-286), which matches time order only when both strings have the same format. Turning the column into `datetime64[ns]` (line 51) keeps the integer values; the model records only that it happened, because a redraw depends on it.
- `ParseRecordingName` accepts what Python's `int` accepts from a name piece, except surrounding whitespace and non-ASCII digits. Underscores between digits cannot occur, because they have become separators.
- `CreateFigure` checks for the missing first sample and the unconverted column before drawing any band, not inside the loop. The outcome is the same: the source raises on the first band it tests, before it has added any.
- Shape colours, opacity, the ±40 vertical extent, the layer, trace names and the `update_xlim` status text are rendering detail.
- The text identifier computed from the label bounds (lines 255-260) is never used. The model only keeps the failure it raises when there is no selection.
- The module globals are `None` until the first project is selected. The model starts them as empty lists, because the project callback runs once at start-up. The unused `original_acceleration` copy (line 175) and the `print` at line 210 are also not modelled.
- `Intervals.RemoveFirst` requires the element to be in the list. The `ValueError` that `list.remove` raises otherwise cannot happen in the viewer, which removes only an element it has just found in the list.
