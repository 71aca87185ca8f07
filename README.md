# Global monitoring recorder, modelled in Dafny

`monitoring.py` records one experiment as rows of a CSV file. Its `Monitoring`
object writes a header row and then loops. Each iteration:

- measures the change of the eight network counters since the previous iteration;
- adds up the CPU and memory statistics of the processes named `ros2`;
- polls a serial GPS receiver for the first `$GPGGA` (NMEA 0183 GGA) sentence,
  decoding its latitude, longitude and altitude into a stored triple;
- pings the target host (line 224); the flag is written only when this
  machine is not the target (line 248);
- appends the row.

The loop stops after the first iteration whose elapsed time reaches the
experiment duration. The last row is then written once more.

The model has one module per concern:

| module | file | what it holds |
|---|---|---|
| `Wrappers` | `wrappers.dfy` | `Option` |
| `Text` | `text.dfy` | Python's `str.strip()`, `str.startswith()` and `str.split(',')` on `seq<char>`, with their specifications |
| `Network` | `network.dfy` | the counter snapshot, the eight deltas of `network_measure`, and their telescoping over a run |
| `Nmea` | `nmea.dfy` | `nmea_to_decimal_degrees`, and the effect of one `get_gps_data` poll as a function (`PollGps`) |
| `Processes` | `processes.dfy` | the `ros2` filter and the sums of `cpu_measure` and `ram_measure`, as loops proved against fold functions |
| `Reachability` | `reachability.dfy` | the flag `ping` derives from the exit status |
| `Csv` | `csv.dfy` | the header, the row encoding and its decoding, and the append of `write_csv` |
| `Sampler` | `sampler.dfy` | the class `Monitoring`, the loop body (`Tick`), the run (`Run`) and the lemmas about runs |

The class `Monitoring` keeps the fields the source updates in place:

- `data`, `old_network_data`, `new_network_data`;
- the file contents, as `csvFile`, where `None` means the file does not exist;
- the GPS triple, as an `array<real>` of length 3, written entry by entry the
  way `self.gps_data[i] = …` does.

Each method is proved against a function of the old state: `GetGpsData`
against `Nmea.PollGps`, `SampleTick` against `Sampler.Tick`, and `GetData`
against `Sampler.Run`. The lemmas are then proved about those functions.

Everything the program reads from outside becomes an input:

- the clock, the process table and the network counters;
- whether the serial port opens, and the lines it delivers;
- the exit status of `ping`.

`GetData` takes one `TickInput` per loop iteration. The input is a finite
prefix of what the real program would read. When the supplied serial lines
hold no GGA sentence, the poll's outcome is `Pending`. When the ticks run out
before the deadline, the run's outcome is `Waiting`. In both cases the real
program would still be blocked or running.

Python's `float(text)` becomes the partial function parameter `parse`, where
`None` stands for a `ValueError`. Floats become exact `real`s.

Behaviour of the code worth knowing:

- The GGA guard (line 187) requires more than nine fields and non-empty
  fields 2, 4 and 9. It does not check the hemisphere fields 3 and 5.
- Degrees are taken with `int()` (line 204), which truncates toward zero.
  `Nmea.ConversionIsOdd` proves that negating a coordinate therefore negates
  its decoded value. `Nmea.TruncationOnNegative` shows that at -4916.45
  truncation takes -49 degrees where a floor would take -50. A GGA coordinate
  field is never negative, so this matters only for malformed input.
- `serial.Serial(...)` (line 178) is outside the `try`. A missing device
  therefore raises out of `get_data` and ends the run (`Aborted`).
- `serial_timeout` (line 39) is never passed to the port, so `readline` blocks
  until a line arrives.
- A `float()` failure inside the `try` is caught, and the poll returns `None`
  (lines 195-196). The entries stored before the failure stay updated
  (`Nmea.FailedParseKeepsEarlierEntries`). The row of that iteration then has
  no position cells, so it is three cells shorter than the header
  (`Sampler.TickRowReadsBack`).
- The ping runs on every iteration, also on the target machine itself
  (line 224). Its timeout of up to one second (`-W1`, line 124) therefore
  adds to the time of each iteration even when the flag is not written.
- `ping` returns 1 for every exit status that is not positive (lines 127-130),
  including negative ones.
- The header always has the `LAT`, `LONG` and `ALT` columns. Line 28 tests the
  bound method `self.get_gps_data`, which is always truthy.
- The eighth network column is labelled `Drop_total` (line 25). It holds the
  outgoing drop count (line 166).
- `experiment_timestep` (line 22) is stored and never used. The loop runs as
  fast as its measurements allow.
- The CPU and RAM sums run over two separately enumerated process tables
  (lines 91 and 109), so they can see different processes. Each tick
  therefore carries two process tables.

## Model

| member | source | states |
|---|---|---|
| Text.IsSpace | monitoring.py:183 | the characters `strip()` removes, the white space of Python's `str.isspace()`; what stripping does with them is stated by `Text.StripSpec` and `Text.StripPadded` |
| Text.LeadingSpaces | monitoring.py:183 | the number of leading characters `strip()` removes: all of them white space, and the next character (if any) not |
| Text.TrailingSpaces | monitoring.py:183 | the same for the end of the string |
| Text.StripSpec | monitoring.py:183 | `strip()` keeps a contiguous middle of the line that neither starts nor ends with white space; everything cut off at either end is white space |
| Text.Split | monitoring.py:186 | `split(',')` always yields at least one field |
| Text.SplitSpec | monitoring.py:186 | `split(',')` yields one more field than there are commas, no field contains a comma, and joining the fields with commas gives back the line |
| Text.SplitJoin | monitoring.py:186 | splitting the comma-join of comma-free fields gives back exactly those fields |
| Text.Strip | monitoring.py:183 | `strip()`, characterised by `Text.StripSpec` and `Text.StripPadded` |
| Text.StripPadded | monitoring.py:183 | stripping a line padded with white space on both sides gives back the line, when the line itself neither starts nor ends with white space |
| Text.StartsWith | monitoring.py:184 | `startswith`, characterised by `Text.StartsWithSpec` and `Text.StartsWithExtension` |
| Text.StartsWithSpec | monitoring.py:184 | a string starts with a prefix exactly when the prefix is no longer than it and agrees with it character by character |
| Text.StartsWithExtension | monitoring.py:184 | every string extending a prefix starts with it |
| Network.Deltas | monitoring.py:144-166 | eight deltas, each the newer minus the older value of one counter, in the order bytes sent, bytes received, packets sent, packets received, send errors, receive errors, incoming drops, outgoing drops |
| Network.AdvanceDeltas | monitoring.py:144-166 | adding the deltas back onto the older snapshot gives the newer one, so the deltas lose no information |
| Network.DeltasAdvance | monitoring.py:144-166 | the deltas between a snapshot and one reached from it by adding `d` are exactly `d` |
| Network.DeltasOfSameSnapshot | monitoring.py:141-142 | comparing a snapshot with itself (the first call, when nothing is stored) gives eight zeros |
| Network.Outputs | monitoring.py:133-170 | successive calls produce one row of eight deltas per snapshot; `Sampler.RunNetworkColumns` shows these are the network cells of the rows `get_data` writes |
| Network.OutputsAt | monitoring.py:139-168 | the k-th of successive calls gives the deltas of snapshot k over snapshot k - 1, and the first call those over the stored snapshot (or over itself when none is stored) |
| Network.OutputsCons | monitoring.py:139-168 | the first of successive calls compares with the stored snapshot (or with itself when none is stored), and every later call with the snapshot before it |
| Network.Telescoping | monitoring.py:139-168 | over any run of calls, such as the iterations of `get_data` (`Sampler.RunNetworkColumns`), each column of deltas adds up to the last snapshot minus the first reference point (the stored snapshot, or the first snapshot when nothing was stored) |
| Nmea.Trunc | monitoring.py:204 | `int()` rounds toward zero on both sides of zero |
| Nmea.DegreesPart | monitoring.py:204 | `int(float(coordinate) / 100)`, the whole degrees, rounded toward zero; characterised by `Nmea.MinutesPartRange` and `Nmea.TruncationOnNegative` |
| Nmea.MinutesPart | monitoring.py:205 | the coordinate minus its degrees times 100, the minutes; their range for each sign is stated by `Nmea.MinutesPartRange` |
| Nmea.IsSouthOrWest | monitoring.py:207 | `direction in ['S', 'W']`; `Nmea.HemisphereSign` states that exactly these two directions negate the result |
| Nmea.MinutesPartRange | monitoring.py:204-205 | a coordinate is its degrees times 100 plus its minutes; the minutes lie in [0, 100) for a non-negative coordinate and in (-100, 0] for a negative one |
| Nmea.NmeaToDecimalDegrees | monitoring.py:203-209 | the conversion, characterised by `Nmea.DegreesMinutesDecode`, `Nmea.HemisphereSign` and `Nmea.ConversionIsOdd` |
| Nmea.DegreesMinutesDecode | monitoring.py:203-209 | a value written as `degrees * 100 + minutes` with minutes in [0, 100) decodes to `degrees + minutes / 60`, negated exactly for the S and W hemispheres |
| Nmea.HemisphereSign | monitoring.py:207-208 | S and W negate the result, and every other direction string leaves it unchanged |
| Nmea.ConversionIsOdd | monitoring.py:204-208 | because `int()` truncates, negating the coordinate negates the result |
| Nmea.TruncationOnNegative | monitoring.py:204-206 | at -4916.45, `int()` takes -49 degrees and -16.45 minutes, where a floor would take -50 degrees |
| Nmea.ConversionExamples | monitoring.py:203-209 | 4916.45 N decodes to 49 + 16.45/60, 4916.45 S to its negation, and 12311.12 W to -(123 + 11.12/60) |
| Nmea.IsGga | monitoring.py:183-184 | a line counts as a GGA sentence when its stripped text starts with `$GPGGA`; `Nmea.FirstSentence` and `Nmea.OnlyFirstSentenceCounts` state which such line the poll uses |
| Nmea.SentenceFields | monitoring.py:183-186 | the fields are the stripped line split on commas, so by `Text.SplitSpec` one more than its commas, and by `Nmea.DecodesSentence` exactly the fields a padded comma-joined sentence was made of |
| Nmea.FirstSentence | monitoring.py:181-185 | the index of the first line whose stripped text starts with `$GPGGA`, with no such line before it; `None` exactly when no line qualifies |
| Nmea.FieldsPresent | monitoring.py:187 | the guard: more than nine fields, and fields 2, 4 and 9 non-empty; its effect is stated by `Nmea.IncompleteSentenceKeepsFix` and `Nmea.CompleteSentenceSetsFix` |
| Nmea.ApplySentence | monitoring.py:187-196 | the update for the first GGA line's fields, characterised by `Nmea.ApplySentenceFrame`, `Nmea.IncompleteSentenceKeepsFix`, `Nmea.CompleteSentenceSetsFix` and, for a `float()` failure, `Nmea.FailedParseKeepsEarlierEntries`; `Sampler.TickRowReadsBack` states the effect of that failure on the row |
| Nmea.PollGps | monitoring.py:173-199 | one poll, characterised by `Nmea.PollGpsFrame`, `Nmea.OnlyFirstSentenceCounts` and `Nmea.DecodesSentence`, and implemented in place by `Sampler.Monitoring.GetGpsData` |
| Nmea.PollGpsFrame | monitoring.py:178-199 | a returned triple is the stored one; the outcome is `NoDevice` exactly when the port fails to open, and `Pending` exactly when no GGA line arrives; the triple changes only when a GGA line passed the guard; the altitude changes only when the whole update succeeded |
| Nmea.ApplySentenceFrame | monitoring.py:187-196 | for one GGA line, the outcome is the returned triple or the swallowed exception, and the triple changes only when the guard held |
| Nmea.IncompleteSentenceKeepsFix | monitoring.py:187-193 | a GGA line failing the guard leaves the triple unchanged and returns it |
| Nmea.CompleteSentenceSetsFix | monitoring.py:187-193 | a GGA line passing the guard whose three numbers parse replaces the triple by the converted latitude, the converted longitude and the altitude, and returns it |
| Nmea.FailedParseKeepsEarlierEntries | monitoring.py:187-196 | after the guard has passed, a `float()` failure makes the poll hand back nothing, keeping the entries written before it: none when the latitude fails, the latitude when the longitude fails, latitude and longitude when the altitude fails |
| Nmea.OnlyFirstSentenceCounts | monitoring.py:181-186 | non-GGA lines before the first GGA line, and every line after it, make no difference to the poll |
| Nmea.DecodesSentence | monitoring.py:183-190 | a line holding a comma-joined GGA sentence, with any white space around it (such as the trailing "\r\n"), updates the triple exactly as its fields say; this includes a truncated sentence with fewer than ten fields, which then fails the guard |
| Processes.IsMeasured | monitoring.py:92 | `proc.name() == "ros2"`, the test of both enumeration loops (lines 92 and 110); `Processes.MatchingMembers` states that the filter keeps exactly the processes passing it |
| Processes.CpuTime | monitoring.py:100 | `sum(proc.cpu_times()[:2])`, user plus system time; `Processes.CpuMeasure` states that the loop sums it over the `ros2` processes |
| Processes.Matching | monitoring.py:90-93 | the `ros2` filter, characterised by `Processes.MatchingMembers` and `Processes.MatchingAppend` |
| Processes.Total | monitoring.py:98-100 | the running sum, characterised by `Processes.TotalAppend` and, over the filter, by `Processes.TotalIsMasked` |
| Processes.TotalRss | monitoring.py:116-118 | the resident-bytes sum, characterised by `Processes.TotalRssAppend` and `Processes.TotalRssIsMasked` |
| Processes.MatchingMembers | monitoring.py:90-93 | a process is kept exactly when it is enumerated and named `ros2` |
| Processes.MatchingAppend | monitoring.py:90-93 | filtering distributes over concatenation, so the kept processes keep their enumeration order |
| Processes.TotalAppend | monitoring.py:98-100 | the running sum over two parts is the sum of the two sums |
| Processes.TotalRssAppend | monitoring.py:116-118 | the same for the resident-bytes sum |
| Processes.TotalIsMasked | monitoring.py:90-100 | summing over the kept processes equals summing over all processes with non-`ros2` ones counted as zero |
| Processes.TotalRssIsMasked | monitoring.py:108-118 | the same for the resident bytes |
| Processes.NoTargetIsZero | monitoring.py:95-101 | with no `ros2` process, nothing is kept and all four sums are zero |
| Processes.FilterTargets | monitoring.py:90-93 | the loop keeps exactly the matching processes, in order |
| Processes.CpuMeasure | monitoring.py:86-101 | the loop returns the sum of CPU percentages and of user plus system time over the `ros2` processes |
| Processes.RamMeasure | monitoring.py:104-119 | the loop returns the sum of memory percentages and of resident bytes over the `ros2` processes |
| Reachability.Ping | monitoring.py:122-130 | the flag is 0 or 1, and it is 1 exactly when the exit status is not positive |
| Csv.IsTarget | monitoring.py:24-26 | `not self.is_target` on the float argument: this machine is the target exactly when the argument is non-zero; `Csv.HeaderRow` and `Sampler.TickRowFits` state that the ping column (lines 26 and 248) follows it |
| Csv.TextRow | monitoring.py:64-66 | the row of column names `writer.writerow(self.table_row)` writes, one name cell per column in order; `Sampler.Monitoring.constructor` and `Sampler.Monitoring.CreateCsv` state that the file then holds just the header |
| Csv.HeaderRow | monitoring.py:25-29 | the header is the 13 base columns, then `Ping_target` exactly when this is not the target, then `LAT`, `LONG`, `ALT` |
| Csv.EncodeRow | monitoring.py:226-255 | the row, characterised cell by cell by `Csv.RowLayout` and inverted by `Csv.DecodeRow` (`Csv.DecodeEncode`, `Csv.EncodeDecode`) |
| Csv.RowLayout | monitoring.py:226-255 | a row's width and the position of every cell: timestamp, eight deltas, CPU and RAM sums, then the ping flag when written, and the three position cells last |
| Csv.DecodeEncode | monitoring.py:226-255 | every row reads back as the sample it was written from |
| Csv.EncodeDecode | monitoring.py:226-255 | a row that reads back is exactly the encoding of what it reads as |
| Csv.RowAgainstHeader | monitoring.py:25-29 | a row whose ping cell follows the target flag is as wide as the header when it has a position, and three cells short otherwise |
| Csv.AppendRow | monitoring.py:69-83 | the write raises exactly when the file does not exist and `force` is not set; otherwise the row is appended to the existing contents, or becomes the only row of a new file |
| Sampler.TickSample | monitoring.py:219-255 | the values one iteration appends to `data`, in order; `Sampler.TickRowReadsBack` states that the row written reads back as this sample |
| Sampler.PositionOf | monitoring.py:252-255 | the position cells are present exactly when the poll returned the triple; stated for the written row by `Sampler.TickRowReadsBack` |
| Sampler.Tick | monitoring.py:219-257 | an iteration that writes leaves a file behind, and its `data` is the row it wrote |
| Sampler.TickWrites | monitoring.py:219-257 | an iteration writes its row exactly when the port opens, a GGA line arrives and the file exists |
| Sampler.TickAppendsRow | monitoring.py:219-257 | an iteration either appends its row to the existing file or leaves the file alone |
| Sampler.TickRowReadsBack | monitoring.py:219-255 | a written row reads back as the iteration's sample, with position cells exactly when the poll returned the triple; otherwise the poll swallowed a `float()` failure and the row is three cells shorter than the header; cells 1 to 8 hold the deltas over the stored snapshot, and the new snapshot is stored |
| Sampler.TickRowFits | monitoring.py:226-257 | the row of an iteration reads back, has a ping cell exactly when this is not the target, and fits the header apart from a missing position |
| Sampler.RunLoop | monitoring.py:218-264 | the loop from one iteration on, characterised by `Sampler.CompletedRun`, `Sampler.FirstRowOfRun`, `Sampler.RunAppends`, `Sampler.RunReachesDeadline` and `Sampler.RunRowsFit` |
| Sampler.Conclude | monitoring.py:263-264 | the write after the loop; its effect is stated by `Sampler.CompletedRun` (the last row twice) and `Sampler.RunAppends` |
| Sampler.Run | monitoring.py:212-264 | `get_data`, characterised by `Sampler.RunFileGrowth`, `Sampler.RunCompletesAtDeadline` and `Sampler.FirstRowQuiet`, and implemented by `Sampler.Monitoring.GetData` |
| Sampler.CompletedRun | monitoring.py:217-264 | a completed run stopped after the first iteration whose elapsed time reached the duration, and appended one row per iteration plus a copy of the last |
| Sampler.FirstRowOfRun | monitoring.py:218-257 | the first row a run appends is the row of its first iteration |
| Sampler.RunAppends | monitoring.py:218-264 | the file grows by exactly the rows the run reports; without a file the run writes nothing and never completes |
| Sampler.RunReachesDeadline | monitoring.py:218-264 | when every iteration up to the first one past the deadline writes its row, the run completes right after it |
| Sampler.RunRowsFit | monitoring.py:218-264 | when every iteration's row fits the run, so does every row the run appends |
| Sampler.RowBeforeRest | monitoring.py:218-257 | an iteration that writes before the deadline puts its row in front of the rows of the rest of the run |
| Sampler.RunNetworkCells | monitoring.py:218-257 | for a loop body that measures the network, cells 1 to 8 of the rows written inside the loop are the successive `network_measure` results for the counters of those iterations |
| Sampler.RunNetworkColumns | monitoring.py:212-257 | for `get_data`: cells 1 to 8 of the k-th row written inside the loop are the k-th of the successive `network_measure` results for the counters of the iterations, so by `Network.OutputsAt` the counters of iteration k minus those of iteration k - 1, or minus the stored snapshot for the first row |
| Sampler.RunFileGrowth | monitoring.py:212-264 | for `get_data`: the file grows by exactly the reported rows, and each of them fits the header |
| Sampler.RunCompletesAtDeadline | monitoring.py:212-264 | for `get_data`: when the port opens and a GGA line arrives on every tick up to the first one past the deadline, the run completes after that tick |
| Sampler.FirstRowQuiet | monitoring.py:141-142 | with no stored snapshot, the first row reports eight zero network deltas |
| Sampler.Monitoring.constructor | monitoring.py:13-43 | the header follows the target flag, `data` is empty, no snapshot is stored, the triple is all zero, and the file holds just the header |
| Sampler.Monitoring.CreateCsv | monitoring.py:59-66 | the file is (re)created holding just the header row |
| Sampler.Monitoring.WriteCsv | monitoring.py:69-83 | `data` is appended when the file exists or `force` is set; otherwise it raises and the file is unchanged |
| Sampler.Monitoring.NetworkMeasure | monitoring.py:133-170 | the result is the deltas over the stored snapshot (all zero when none is stored), and the current snapshot becomes the stored one |
| Sampler.Monitoring.StoreFix | monitoring.py:187-196 | the in-place update of the triple for one GGA line's fields, with the swallowed `float()` failure |
| Sampler.Monitoring.GetGpsData | monitoring.py:173-199 | the poll changes the triple and hands back what `PollGps` says |
| Sampler.Monitoring.SampleTick | monitoring.py:219-257 | one loop iteration changes the object as `Tick` says |
| Sampler.Monitoring.GetData | monitoring.py:212-264 | the whole loop and the final write change the object, and end, as `Run` says |

## Left out

- The process table, the network counters, the clock and the serial device are read from outside. They are inputs, not calls into `psutil`, `time` or `serial`.
- The `ping` subprocess is replaced by its exit status. An invocation failure before the child starts is not part of this model.
- Serial reading is modelled as lines that are already decoded. A `UnicodeDecodeError` or a read error raised inside the `try` is not modelled; like a `float()` failure, it would be swallowed.
- Blocking I/O is modelled by finite inputs. A `readline` that never returns a GGA line, or a clock that never reaches the duration, appears as `Pending` or `Waiting`.
- Floating point is modelled by exact reals. So are the float cells of a row, and the sums of `cpu_percent` and `memory_percent`. Python's integer `0` for an empty sum and a float sum are not told apart.
- CSV text formatting, quoting, encoding and the `newline=''` option are left out. A row is the list of its cell values.
- `check_dataset_directory`, the dataset path and the experiment name are left out. They only decide where the file lives.
- The millisecond timestamp (`int(round(time.time() * 1000)) - starting_time`, including the banker's rounding of `round`) is an input of each tick.
- Argument parsing, the `__main__` block and the `exit()` after `get_data` are left out. `is_target` is taken as the float argparse produces, and it counts as set when it is non-zero.
- `cpu_percent(interval=0.2)` blocks for 200 ms and measures over that window. Here it is just a value of the process.
- A process that exits during enumeration (`psutil.NoSuchProcess`) is not modelled.
- `get_gps_data` returns `self.gps_data` itself, which aliases the stored list. The model returns a copy; nothing in the source mutates the returned list afterwards.
- Deleting the file from outside during a run is not modelled. A missing file appears only as the state a run starts from, and `write_csv` then raises.
- The `print` diagnostics for incomplete GPS data, for a missing connection and at the end of the experiment are not modelled.
