# python-openmotorsport lap and timeseries core in Dafny

This project models the computational core of python-openmotorsport. That
library reads and writes OpenMotorsport telemetry sessions: a zip archive with
a `meta.xml` document and one binary array per channel. The model covers the
parts that compute something:

- `Time` (`time.dfy`) covers `openmotorsport/time.py`:
  - `Frequency` with its integer millisecond interval and `from_interval`;
  - the `Epoch` window;
  - the variable and uniform timeseries with `len`, `duration`, `end_time`,
    `get`, `index_at`, `at` (linear interpolation), `slice`, `append`, and the
    output length of `resample`.
- `Laps` (`laps.dfy`) covers `Session.refresh_laps` and `Lap`:
  - the markers are cut into groups of `num_sectors + 1`, the last group
    padded with None;
  - each mark is made relative to the boundary before it;
  - each lap gets a length, an offset and its sector times;
  - `end_time`.
- `Sessions` (`session.dfy`) covers:
  - the `laps` property with its lap cache, `add_markers`, and assigning
    `num_sectors`;
  - the mandatory-field check of `_write_meta` (`SubElementFromDict`,
    `SubElementFromDictConditional`, the `Metadata` defaults).
- `Utils` (`utils.dfy`) covers every function of `openmotorsport/utils.py`.
- `Wrappers` (`wrappers.dfy`) holds the shared `Option` and `Result` types
  and Python subscripting.
- `Arith` (`arith.dfy`) holds the integer division facts everything rests on.

Python exceptions become `Failure(e)` values. `e` names the exception class
the library raises (`ValueError`, `IndexError`, `TypeError`,
`ZeroDivisionError`, `KeyError`, or the "Missing value" exception). Times are
integer milliseconds, and sample values are reals.

Some choices follow the source's own behaviour:

- **Laps follow the repository's lap tests.** `tests/openmotorsport_tests.py`
  (253-319, 474-501) fixes the lap semantics. Laps have `length`, `offset`
  and `end_time`. Sector times are relative to the previous sector boundary.
  The `refresh_laps` in `openmotorsport/openmotorsport.py` is an earlier
  revision: it names the length `time` and measures every sector from the
  lap start, and starts a new session with `num_sectors` 0 (line 55). The
  sessions the tests exercise start with the count unset: markers added to
  a fresh session give no laps (`tests/openmotorsport_tests.py` 38-49), and
  laps appear only once `num_sectors` is assigned, 0 included (51-59,
  311-319). The model types the sector count `Option<nat>`, None until it
  is set, and `Laps.DeriveLaps` gives no laps for None. The model uses the
  test-era semantics, with the grouping
  and the running sum of lap lengths as written. `Laps.DeriveLaps` treats
  only a missing slot as missing. The `if s` truthiness test is modelled
  separately, in `Laps.DeriveLapsAsWritten`. There a mark at time 0 is
  dropped. When such a mark closes a lap that is not the last, the lap has
  no time, and the next mark's `make_relative` sums it: `TypeError`.
- **Lap identity.** `utils.py` compares laps with `!=`, and `Lap` defines
  only `__eq__`. In Python 2, `!=` then compares object identity. The model
  therefore identifies a lap by its index in the session's lap list.
  `list.index` still uses `Lap.__eq__`, which compares length and sectors and
  ignores the offset (`Utils.LapEq`).
- **Python 2 ordering.** None orders below every number. This matters in
  `fastest_sector` and in the `>=`/`<=` filters of `*_or_next_*`.
- **`from_interval` rounds.** The interval is a whole number of
  milliseconds, so going from a rate to its interval and back does not always
  return the rate: 300 Hz gives 3 ms, which reads back as 333 Hz.
  `Time.FrequencyRoundTrip` states exactly when the round trip holds.
  `Time.LowRateRoundTrip` shows it holds for every rate up to 31 Hz, and
  `Time.DivisorRateRoundTrip` for every rate that divides 1000.
- **Conflicting tests.** `tests/util_tests.py:73` expects the next slowest
  lap of the twelve-marker session to be lap 3. Line 74 expects the same call
  to return lap 0. The model follows the code and its docstring (see
  Findings).

## Model

| member | source | states |
|---|---|---|
| `Time.MakeFrequency` | openmotorsport/time.py:43-44 | A positive rate gives a frequency whose interval `i` satisfies `rate * i <= 1000 < rate * (i + 1)`; rate 0 raises `ZeroDivisionError`. |
| `Time.FromInterval` | openmotorsport/time.py:58-59 | Succeeds exactly for intervals 1..1000; the rate `r` satisfies `interval * r <= 1000 < interval * (r + 1)`; 0 or more than 1000 ms raises `ZeroDivisionError`. |
| `Time.Frequency.Interval` | openmotorsport/time.py:44 | The interval `i` is the most whole milliseconds that fit `rate` times into one second: `rate * i <= 1000 < rate * (i + 1)`. |
| `Time.FrequencyRoundTrip` | openmotorsport/time.py:43-59 | For rates up to 1000 Hz, `from_interval(f.interval)` succeeds with a rate at least `f`'s, and equals `f` exactly when `1000 % rate < 1000 / rate`. Above 1000 Hz the interval is 0 and it raises `ZeroDivisionError`. |
| `Time.DivisorRateRoundTrip` | openmotorsport/time.py:43-59 | Rates dividing 1000 survive the interval round trip. |
| `Time.LowRateRoundTrip` | openmotorsport/time.py:43-59 | Every rate from 1 to 31 Hz survives the interval round trip. |
| `Time.RoundTripLosesRate` | openmotorsport/time.py:43-59 | 300 Hz has a 3 ms interval, which reads back as 333 Hz. |
| `Time.FrequencyExamples` | tests/time_tests.py:26-31 | 5 Hz is 200 ms and back; rate 0 fails. |
| `Time.Arange` | openmotorsport/time.py:220-223 | `numpy.arange` over integers: point `i` is `start + i * step`, all points lie below `stop`, and one more step reaches it. |
| `Time.ArangeCount` | openmotorsport/time.py:220-223 | A grid from `start` to `start + n * step` has exactly `n` points. |
| `Time.NewVariable` | openmotorsport/time.py:139-150 | Succeeds exactly when data and times have equal length, keeping both; otherwise `ValueError`. |
| `Time.Get` | openmotorsport/time.py:123-125 | Python subscript: succeeds exactly for `-len <= index < len`, reading from the end for negative indices; `IndexError` otherwise. |
| `Time.IndexAt` | openmotorsport/time.py:167-171 | For a real `t`, succeeds exactly when some time is at or after `t`, returning the first such position; `ValueError` otherwise. |
| `Time.SearchSorted` | openmotorsport/time.py:164 | Counts the times below `t`, so the position returned is the first at or after `t`. |
| `Time.Interpolate` | openmotorsport/time.py:162-165 | Defined exactly when there are at least two samples (`interp1d` rejects fewer) and `t` lies from the first to the last sample time; `ValueError` otherwise. The value lies on the segment between two neighbouring samples around `t` and between their values. |
| `Time.InterpolateAtSample` | openmotorsport/time.py:162-165 | With at least two samples, interpolating at a sample's own time gives that sample's value. |
| `Time.InterpolateAll` | openmotorsport/time.py:237-244 | Interpolating a list of points succeeds exactly when there are at least two samples and every point is in range, and gives each point's interpolated value. |
| `Time.UniformTimes` | openmotorsport/time.py:220-223 | A uniform series' times are `offset + i * interval`, one per sample; a zero interval makes `arange` fail. |
| `Time.UniformTimesIncreasing` | openmotorsport/time.py:220-223 | Uniform sample times strictly increase. |
| `Time.TimeSeries.Len` | openmotorsport/time.py:133-134 | The sample count, which for a variable series is also the number of times. |
| `Time.TimeSeries.Duration` | openmotorsport/time.py:157-218 | 0 for an empty variable series, and no ordered sample time lies past it; a uniform series lasts one interval past its last sample. |
| `Time.TimeSeries.EndTime` | openmotorsport/time.py:115-117 | Never before a uniform series' start; every ordered variable sample time, shifted by the offset, is at or before it. |
| `Time.SampleTimes` | openmotorsport/time.py:152-155 | A variable series' times are its stored times; a uniform series' times are `offset + i * interval`, present exactly when the interval is positive; one time per sample. |
| `Time.EndAfterSamples` | openmotorsport/time.py:216-223 | A uniform series ends one interval after its last sample time, after every sample; a variable series ends at its offset plus its last time. |
| `Time.At` | openmotorsport/time.py:230-234 | `at(t)` is defined exactly when the series has at least two samples and `t` lies from the first to the last sample time (for a uniform series, `offset` to `offset + (len - 1) * interval`). Otherwise it fails with `ValueError`, or with `ZeroDivisionError` for a uniform series whose interval is 0. When defined, the sample times are strictly increasing. |
| `Time.AtInterpolates` | openmotorsport/time.py:230-234 | The value `at(t)` returns is the linear interpolation at `t` between two neighbouring sample times around `t`, and lies between their values. |
| `Time.AtSampleTime` | openmotorsport/time.py:162-165 | In a series of at least two samples, `at` returns every stored sample at its own time. |
| `Time.SliceVariable` | openmotorsport/time.py:173-186 | Succeeds exactly when both window ends have an `index_at`; keeps the samples from the first through the last index with their times as stored, and moves the offset to the window start; `ValueError` otherwise. |
| `Time.SliceVariableSucceeds` | openmotorsport/time.py:173-186 | A variable slice succeeds exactly when some sample is at or after the window start and some sample is at or after its end. |
| `Time.SliceKeepsWindow` | openmotorsport/time.py:173-186 | On ordered times the slice keeps every sample whose time lies inside the window. |
| `Time.SliceStaysInWindow` | openmotorsport/time.py:173-186 | On ordered times the slice holds nothing before the window, and only its last sample may lie at or past the window end. |
| `Time.SliceUniform` | openmotorsport/time.py:236-246 | Succeeds exactly when the series has at least two samples and the window's grid lies within the sampled range, even for an empty grid; `ValueError` otherwise. The result holds `at` of every grid point, at the same frequency, offset at the window start. |
| `Time.SliceUniformAligned` | openmotorsport/time.py:236-246 | In a series of at least two samples, a non-empty window aligned to the sample grid slices out exactly the samples it covers. |
| `Time.Slice` | openmotorsport/time.py:173-246 | Slicing keeps the representation and moves the offset to the window start. |
| `Time.AppendVariable` | openmotorsport/time.py:188-200 | Appends data and times after the old ones when their counts agree; `ValueError` otherwise. |
| `Time.AppendUniform` | openmotorsport/time.py:225-228 | Appends the values after the old data; the duration and end time grow by one interval per value. |
| `Time.ResampledLength` | openmotorsport/time.py:248-262 | Same rate or no data: unchanged length; upsampling: `factor * len`; downsampling by `q`: the `n` with `(n - 1) * q < len <= n * q`. |
| `Time.VariableExamples` | tests/time_tests.py:55-114 | Length mismatches fail; `index_at` on `[1, 2, 3]` gives 0, 1, 2 at the sample times, 1 at 1.5 and `ValueError` at 3.5; `duration`, `end_time` and `at` on `[1, 2, 3]`; `at` and a uniform slice of one sample fail. |
| `Time.UniformExamples` | tests/time_tests.py:159-194 | Uniform durations and end times, and resampled lengths 5, 2 and 40. |
| `Laps.EndTime` | tests/openmotorsport_tests.py:474-501 | Offset plus length; without a length, offset plus the last sector time present; without either, the offset. |
| `Laps.LastPresent` | tests/openmotorsport_tests.py:495-501 | Finds the last present entry, or None when every entry is absent. |
| `Laps.Grouper` | openmotorsport/openmotorsport.py:306-307 | `ceil(len / n)` groups of exactly `n` slots. |
| `Laps.GrouperAt` | openmotorsport/openmotorsport.py:306-307 | Group `i` holds markers `i * n` onward, padded with None past the last marker. |
| `Laps.GroupCount` | openmotorsport/openmotorsport.py:306-310 | Group `i` exists exactly when marker `i * n` does. |
| `Laps.RelSectors` | openmotorsport/openmotorsport.py:312 | One entry per slot, missing exactly where the mark is missing; the first mark is measured from the boundary before the group. |
| `Laps.LapFromGroup` | openmotorsport/openmotorsport.py:311-313 | A group of `k + 1` slots gives a lap with `k` sector entries. |
| `Laps.BuildLaps` | openmotorsport/openmotorsport.py:309-314 | One lap per group. |
| `Laps.DeriveLaps` | openmotorsport/openmotorsport.py:297-315 | No laps without a sector count; with `k` sectors, `ceil(len / (k + 1))` laps. |
| `Laps.BuildLapsAt` | openmotorsport/openmotorsport.py:309-314 | Lap `i` is built from group `i` at the running sum of the lengths before it. |
| `Laps.GroupOffset` | openmotorsport/openmotorsport.py:303-304 | The running sum of lap lengths up to group `i` is the closing mark of group `i - 1`. |
| `Laps.FoldAt` | openmotorsport/openmotorsport.py:303-313 | The lap of the group at marker `p` starts at marker `p - 1`. |
| `Laps.DerivedLap` | openmotorsport/openmotorsport.py:297-315 | Each derived lap equals the reference lap, which reads the group against the previous closing mark with no running sum. |
| `Laps.LapOffset` | openmotorsport/openmotorsport.py:303-304 | Lap `i` starts at the closing mark of lap `i - 1`, or 0. |
| `Laps.SectorCount` | openmotorsport/openmotorsport.py:310-312 | Every lap has exactly `num_sectors` sector entries. |
| `Laps.LapLength` | openmotorsport/openmotorsport.py:313 | A lap's length is its closing mark minus its offset, or None when the markers run out first. |
| `Laps.LapSector` | openmotorsport/openmotorsport.py:312 | Sector `j` is its mark minus the previous boundary (the lap's offset for the first), or None when the markers run out. |
| `Laps.DerivedSectors` | openmotorsport/openmotorsport.py:312 | A lap's sectors are its group's sector slots made relative from the lap start. |
| `Laps.RelSectorsAt` | openmotorsport/openmotorsport.py:303-304 | A present sector mark becomes its distance from the boundary before it. |
| `Laps.RelSectorsAbsent` | openmotorsport/openmotorsport.py:312 | A missing mark gives a missing sector. |
| `Laps.OnlyLastIncomplete` | openmotorsport/openmotorsport.py:306-313 | Only the last lap can lack a length. |
| `Laps.CompleteLapEnd` | tests/openmotorsport_tests.py:474-477 | A complete lap's `end_time` is its closing marker. |
| `Laps.OffsetChain` | openmotorsport/openmotorsport.py:303-304 | Each lap starts at the previous lap's `end_time`. |
| `Laps.OffsetIsSum` | openmotorsport/openmotorsport.py:303-304 | A lap's offset is the sum of the lengths of all laps before it, all of which are complete. |
| `Laps.NoSectorLaps` | tests/openmotorsport_tests.py:266-274 | With no sectors, lap `i` runs from marker `i - 1` (or 0) to marker `i` and has no sectors. |
| `Laps.PresentChunk` | openmotorsport/openmotorsport.py:306-307 | The marks in a group are exactly its slice of the markers. |
| `Laps.RelSectorsInverse` | openmotorsport/openmotorsport.py:303-304 | Adding the relative sector times back up gives the absolute marks. |
| `Laps.GroupMarks` | openmotorsport/openmotorsport.py:311-313 | The lap of a group accounts for exactly that group's marks. |
| `Laps.BuildMarks` | openmotorsport/openmotorsport.py:309-314 | Laps built from the groups account for all the markers, in order. |
| `Laps.MarkersRoundTrip` | openmotorsport/openmotorsport.py:297-315 | The derived laps give back exactly the markers, so laps and markers carry the same information. |
| `Laps.ExtendKeepsCompleteLap` | openmotorsport/openmotorsport.py:293-315 | Appending markers leaves every complete lap unchanged. |
| `Laps.TwoCompleteLaps` | tests/openmotorsport_tests.py:253-264 | `[10, 20, 30, 50, 60, 70]` with two sectors gives laps of 30 and 40 with sectors `[10, 10]` and `[20, 10]`. |
| `Laps.PartialSecondLap` | tests/openmotorsport_tests.py:276-286 | `[10, 20, 30, 40]` gives a second lap with no length and sectors `[10, None]`. |
| `Laps.PartialFirstLap` | tests/openmotorsport_tests.py:288-295 | `[10, 20]` gives one lap with no length and sectors `[10, 10]`. |
| `Laps.LapFields` | tests/openmotorsport_tests.py:253-304 | With two sectors, every field of lap `i` read off the markers. |
| `Laps.EvenLaps` | tests/openmotorsport_tests.py:311-319 | Markers spaced `step` apart with no sectors give laps of `step` at offsets `step * i`. |
| `Laps.SixPlainLaps` | tests/openmotorsport_tests.py:266-274 | Six markers 10 apart give six laps of 10 at offsets 0, 10, ..., 50. |
| `Laps.NoCountNoLaps` | tests/openmotorsport_tests.py:38-49 | With the sector count unset, any markers give no laps; and with a count set, no markers give no laps (the empty session of lines 307-309). |
| `Laps.EndTimeExamples` | tests/openmotorsport_tests.py:495-501 | `end_time` with and without a length or sectors. |
| `Laps.Truthy` | openmotorsport/openmotorsport.py:312-313 | `if s` keeps a mark exactly when it is present and not 0. |
| `Laps.BuildLapsAsWritten` | openmotorsport/openmotorsport.py:303-314 | Fails, with `TypeError`, exactly when some mark comes after a lap without a time; otherwise gives the laps of the tested groups. |
| `Laps.DeriveLapsAsWritten` | openmotorsport/openmotorsport.py:303-314 | As written: no laps without a sector count; otherwise either `TypeError` or one lap per group. |
| `Laps.AsWrittenTypeError` | openmotorsport/openmotorsport.py:303-313 | As written, `TypeError` exactly when a lap's closing mark is 0 and a later lap holds a mark other than 0. |
| `Laps.AsWrittenWithoutZero` | openmotorsport/openmotorsport.py:312-313 | Without a marker at time 0, the as-written derivation raises nothing and equals the corrected one. |
| `Laps.ZeroMarkerLost` | openmotorsport/openmotorsport.py:312-313 | Markers `[0, 10]` with one sector: as written the lap's sector is None and the laps account only for `[10]`. |
| `Laps.ZeroLapMarkTypeError` | openmotorsport/openmotorsport.py:303-313 | Markers `[0, 10]` with no sectors: as written `TypeError`; corrected, two laps that give back both markers. |
| `Sessions.DefaultMetadata` | openmotorsport/openmotorsport.py:429-446 | Fresh metadata has keys `name`, `configuration` for the venue and `name`, `year`, `comments`, `category` for the vehicle, all None. |
| `Sessions.SubElementFromDict` | openmotorsport/openmotorsport.py:483-487 | An element exactly when the key is present with a value; `KeyError` for an absent key, "Missing value" for None. |
| `Sessions.SubElementFromDictConditional` | openmotorsport/openmotorsport.py:489-493 | One element exactly when the key is present with a value, else none. |
| `Sessions.VenueElements` | openmotorsport/openmotorsport.py:132-135 | The venue is written exactly when its name is set; the name comes first, and every element is copied from its entry. |
| `Sessions.VehicleElements` | openmotorsport/openmotorsport.py:137-142 | The vehicle is written exactly when its name is set; the name comes first, and every element is copied from its entry. |
| `Sessions.WriteMeta` | openmotorsport/openmotorsport.py:132-142 | A venue failure is the one reported; any failure is `KeyError` or a missing name; on success both element lists start with the name and copy their entries. |
| `Sessions.WriteMetaMandatory` | openmotorsport/openmotorsport.py:121-142 | Writing succeeds exactly when both names are set; a missing venue name is reported first. |
| `Sessions.VenueOptional` | openmotorsport/openmotorsport.py:133-135 | The configuration is written exactly when it is set, and never decides success. |
| `Sessions.DefaultMetadataFails` | openmotorsport/openmotorsport.py:429-446 | Fresh metadata cannot be written. |
| `Sessions.NamedMetadataWrites` | openmotorsport/openmotorsport.py:132-142 | With both names set, the elements are written in order, optional ones included. |
| `Sessions.NewSession` | tests/openmotorsport_tests.py:38-42 | A fresh session has no markers, no sector count and a valid (empty) cache. |
| `Sessions.FreshSessionNoLaps` | tests/openmotorsport_tests.py:38-45 | Markers added to a fresh session are kept but give no laps. |
| `Sessions.ZeroSectorSessionLaps` | tests/openmotorsport_tests.py:51-59 | Setting a fresh session's sector count to 0 before or after adding markers gives the same laps: one per marker, lap `i` from the previous marker (0 for the first) to marker `i`, with no sectors, and the laps' marks are the markers (also lines 311-319). |
| `Sessions.LapsOf` | openmotorsport/openmotorsport.py:79-83 | Reading `laps` from a session whose cache is valid returns the derived laps and leaves the cache valid. |
| `Sessions.AddMarkers` | openmotorsport/openmotorsport.py:293-295 | Markers are appended and the cache stays valid. |
| `Sessions.SetNumSectors` | openmotorsport/openmotorsport.py:55 | The sector count changes and the cache stays valid. |
| `Sessions.AddMarkersTwice` | openmotorsport/openmotorsport.py:293-295 | Adding markers in two calls is adding them in one. |
| `Sessions.LapsStable` | openmotorsport/openmotorsport.py:79-83 | A second read of `laps` returns what the first did. |
| `Sessions.AddMarkersKeepsLaps` | openmotorsport/openmotorsport.py:293-315 | After adding markers, every previously complete lap reads the same, and the laps account for old and new markers. |
| `Sessions.AddMarkersAsWritten` | openmotorsport/openmotorsport.py:293-295 | As written, `add_markers` appends and keeps the cache. |
| `Sessions.StaleLapCache` | openmotorsport/openmotorsport.py:79-83 | As written, after a read, added markers do not show in `laps`; the corrected session shows them. |
| `Sessions.StaleLapCacheExample` | openmotorsport/openmotorsport.py:79-83 | Markers `[10]` read, `[20]` added: one lap as written, two corrected. |
| `Sessions.SetNumSectorsAsWritten` | openmotorsport/openmotorsport.py:55 | As written, assigning `num_sectors` keeps the cache. |
| `Sessions.StaleSectorCount` | openmotorsport/openmotorsport.py:79-83 | As written, after a read, a new sector count does not show in `laps`; the corrected session shows it. |
| `Utils.LapEq` | openmotorsport/openmotorsport.py:337-340 | A lap equals itself, and equal laps end the same time after their start. |
| `Utils.HasAtLeastOneLap` | openmotorsport/utils.py:102-107 | True for a complete first lap, false without laps; when true, the fastest and slowest lap times exist. |
| `Utils.ExtremeLength` | openmotorsport/utils.py:38 | The min (or max) of the lap lengths that are present; None exactly when all are absent. |
| `Utils.FastestLapTime` | openmotorsport/utils.py:35-38 | Present exactly when the first lap is complete, and then the least lap length. |
| `Utils.SlowestLapTime` | openmotorsport/utils.py:71-74 | Present exactly when the first lap is complete, and then the greatest lap length. |
| `Utils.ExtremeUnique` | openmotorsport/utils.py:35-38 | Two least (or two greatest) lengths are equal. |
| `Utils.DerivedHasLap` | openmotorsport/utils.py:102-107 | A derived lap table has a complete first lap exactly when there are more markers than sectors. |
| `Utils.ReduceLast` | openmotorsport/utils.py:43-44 | The `reduce` picks the last lap from `i` on with the given length, or keeps `x`. |
| `Utils.ExtremeLap` | openmotorsport/utils.py:40-44 | Present exactly when the first lap is complete; then the last lap whose length is extreme. |
| `Utils.FastestLap` | openmotorsport/utils.py:40-44 | The last lap whose length is the fastest lap time. |
| `Utils.SlowestLap` | openmotorsport/utils.py:76-80 | The last lap whose length is the slowest lap time. |
| `Utils.IsFastestLap` | openmotorsport/utils.py:31-33 | True only for a lap with the fastest lap time. |
| `Utils.IsFastestLapIff` | openmotorsport/utils.py:31-33 | True exactly when the lap equals (length and sectors) the last lap with the fastest time. |
| `Utils.FirstOther` | openmotorsport/utils.py:68-69 | The first other lap passing the `>=` (or `<=`) filter, or None when none does. |
| `Utils.OrNextAsWritten` | openmotorsport/utils.py:60-91 | As written: the extreme lap when the given lap is not it, otherwise the first other lap in session order that passes the filter, or None. |
| `Utils.BestOther` | openmotorsport/utils.py:60-69 | The fastest (or slowest) complete lap other than the given one, or None when there is none. |
| `Utils.OrNext` | openmotorsport/utils.py:60-91 | The extreme lap when the given lap is not it, otherwise the fastest (or slowest) other complete lap, or None. |
| `Utils.OrNextBetween` | openmotorsport/utils.py:60-91 | The next fastest is never faster than the fastest, and the next slowest never slower than the slowest. |
| `Utils.NextLap` | openmotorsport/utils.py:93-96 | None exactly on the last lap. |
| `Utils.PreviousLap` | openmotorsport/utils.py:98-100 | None exactly on the first lap. |
| `Utils.NextPreviousInverse` | openmotorsport/utils.py:93-100 | `j` is the lap after `i` exactly when `i` is the lap before `j`, and then `j = i + 1`. |
| `Utils.FirstIndex` | openmotorsport/utils.py:28 | `list.index`: the first equal lap, or None when there is none. |
| `Utils.LapDifference` | openmotorsport/utils.py:26-29 | `ValueError` exactly for a lap not in the list; None exactly for a lap equal to the first. Otherwise, with `i` the first position holding an equal lap, `TypeError` exactly when the lap's or lap `i - 1`'s length is None, else the lap's length minus lap `i - 1`'s. |
| `Utils.RepeatedLapDifference` | openmotorsport/utils.py:26-29 | Laps 30, 20, 40 and 20: the fourth lap's difference is 20 - 30, taken at its first equal. |
| `Utils.LapDifferenceOfLap` | openmotorsport/utils.py:26-29 | For a lap equal to no earlier one, the difference is its length minus the previous lap's length. |
| `Utils.DerivedLapDifference` | openmotorsport/utils.py:26-29 | On derived laps, the difference read off the markers. |
| `Utils.SectorOf` | openmotorsport/utils.py:51-53 | `lap.sectors[s]` is defined exactly for `-len <= s < len`. |
| `Utils.SectorLoop` | openmotorsport/utils.py:51-54 | The loop fails exactly when some lap lacks the sector, and otherwise keeps the least sector time, None being the least. |
| `Utils.FastestSector` | openmotorsport/utils.py:46-54 | None when there are too few markers; `IndexError` exactly when there is no lap or a lap lacks the sector; otherwise the least sector time. |
| `Utils.FastestSectorNone` | openmotorsport/utils.py:46-54 | The fastest sector is None exactly when some lap is missing that sector. |
| `Utils.IsFastestSector` | openmotorsport/utils.py:56-58 | Succeeds exactly when `fastest_sector` does; True only for the least sector time. |
| `Utils.IsFastestSectorIff` | openmotorsport/utils.py:56-58 | True exactly for the least sector time. |
| `Utils.NineMarkerSession` | tests/util_tests.py:8-14 | The nine test markers derive laps of 30, 40 and 20. |
| `Utils.TwelveMarkerSession` | tests/util_tests.py:37-41 | The twelve test markers derive laps of 30, 40, 20 and 25. |
| `Utils.NineMarkerDifferences` | tests/util_tests.py:8-14 | Lap differences None, 10 and -20. |
| `Utils.NineMarkerAnalytics` | tests/util_tests.py:77-92 | The fastest time is 20, on lap 2; next and previous laps at the ends. |
| `Utils.FastestIs` | openmotorsport/utils.py:35-44 | The least length, on a lap with no later equal, is the fastest lap. |
| `Utils.SlowestIs` | openmotorsport/utils.py:71-80 | The greatest length, on a lap with no later equal, is the slowest lap. |
| `Utils.FastestSectorExamples` | tests/util_tests.py:94-130 | Fastest sectors 5 and 5; None without markers; 10 for the partial lap. |
| `Utils.NoCompleteLap` | tests/util_tests.py:25-35 | No lap time or fastest lap without a complete first lap. |
| `Utils.NextFastestFinding` | openmotorsport/utils.py:66-69 | On laps 30, 40, 20 and 25: as written the next fastest is lap 0; corrected it is lap 3. |
| `Utils.NextSlowestFinding` | openmotorsport/utils.py:88-91 | On laps 20, 30 and 40: as written the next slowest is lap 0; corrected it is lap 1. |
| `Utils.NextSlowestIncomplete` | openmotorsport/utils.py:88-91 | After a 40 lap and an incomplete one: as written the incomplete lap; corrected None. |

## Left out

- Zip archive, XML parsing and serialisation, lazy channel loading, channel
  and group bookkeeping, `Session.__eq__`, ISO 8601 dates, the `write` and
  load paths: these are I/O and format plumbing, not computation.
- `Metadata` is modelled only for the venue and vehicle dictionaries the
  mandatory-field check reads; user, date, comments and datasource are plain
  values.
- Floating point: markers and times are integer milliseconds. Sample values
  are exact reals. The source's `float32`/`int32` storage and numpy rounding
  are not modelled.
- `interp1d` is modelled as linear interpolation over the samples. It sorts
  unsorted times first; the model instead requires strictly increasing times.
- `resample` is modelled only by its output length. `signal.resample` and
  `signal.decimate` filter the values, and those values are not modelled.
- `Frequency.__repr__` and `Frequency.__eq__` are left out: equality is the
  datatype's, and two frequencies are equal exactly when their rates are.
- Time.MakeFrequency: a negative rate raises `ValueError` in the model. In
  the source, Python 2 floor division gives a negative interval, and later
  calls fail in other ways.
- Time.FromInterval: a negative interval raises `ValueError` for the same
  reason.
- Laps.DeriveLapsAsWritten: applies the truthiness test and its `TypeError`
  to the test-era lap semantics; it does not reproduce the earlier
  revision's sectors measured from the lap start.
- Sessions.NewSession: starts with the sector count unset, as the tested
  session does. The revision of `openmotorsport/openmotorsport.py` shown
  starts it at 0 (line 55) and reads a missing `sectors` attribute as 0
  (line 287); with that revision a fresh session's markers would each
  close a lap.
- Time.At: requires strictly increasing sample times, because `interp1d`
  sorts its input, and repeated times are not modelled.
- Utils.ExtremeLength: returns None when no length is present. Python's
  `min([])` would raise there, but the callers guard that case first.
- Utils.FastestSector: takes the marker count and the lap list rather than
  a session object.
- The metadata `duration` and synthetic trailing laps are not part of this
  model: the modelled revision has no `duration`.
- `Lap.difference`, `Lap.index` and `Lap.session` are not part of this model.
  The model uses `Utils.LapDifference` and lap indices instead.

## Findings

| source | as written | input that shows it | evidently intended | confidence | as-written member | corrected member |
|---|---|---|---|---|---|---|
| openmotorsport/openmotorsport.py:312-313 | `if s` / `if g[-1]` test truthiness, so a mark at time 0 is treated as missing | markers `[0, 10]`, one sector: the lap's sector becomes None and the mark at 0 is lost | only a missing slot (None) gives a missing sector or length | high, not executed | `Laps.ZeroMarkerLost` | `Laps.MarkersRoundTrip` |
| openmotorsport/openmotorsport.py:304-313 | a lap closed by a mark at time 0 gets time None, and the next mark's `make_relative` sums that None | markers `[0, 10]`, no sectors: `TypeError` | two laps, of 0 and 10 ms | high, not executed | `Laps.ZeroLapMarkTypeError` | `Laps.MarkersRoundTrip` |
| openmotorsport/openmotorsport.py:79-83 | `add_markers` (293-295) leaves `_laps` cached, and `laps` recomputes only when the cache is empty | no sectors, markers `[10]`, read `laps`, add `[20]`: `laps` still has one lap | `laps` reflects the current markers | high, not executed | `Sessions.StaleLapCache` | `Sessions.AddMarkersKeepsLaps` |
| openmotorsport/openmotorsport.py:55 | assigning `num_sectors` leaves `_laps` cached | no sectors, two markers, read `laps`, set one sector: `laps` still has two laps | `laps` reflects the current sector count | medium, not executed | `Sessions.StaleSectorCount` | `Sessions.SetNumSectors` |
| openmotorsport/utils.py:68-69 | takes the first other lap at least as slow as the fastest | laps 30, 40, 20, 25 (tests/util_tests.py:40-45): returns the 30 lap | the next fastest lap, 25 | high, not executed | `Utils.NextFastestFinding` | `Utils.OrNext` |
| openmotorsport/utils.py:90-91 | takes the first other lap at most as slow as the slowest | laps 20, 30, 40: returns the 20 lap | the next slowest lap, 30 | high, not executed | `Utils.NextSlowestFinding` | `Utils.OrNext` |
| openmotorsport/utils.py:90 | `x.length <= lap.length` is true for a None length in Python 2 | laps 40 and an incomplete one: returns the incomplete lap | None, since there is no other complete lap | medium, not executed | `Utils.NextSlowestIncomplete` | `Utils.BestOther` |
