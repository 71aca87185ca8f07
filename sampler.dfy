/**
 * The sample recorder: the `Monitoring` object, its measurements that keep
 * state (`network_measure`, `get_gps_data`), the file it appends to, and the
 * run loop `get_data`, proved against the function `Run`.
 *
 * The wall clock, the process table, the network counters, the serial device
 * and the `ping` child process are inputs: one `TickInput` per iteration.
 */
module Sampler {
  import opened Wrappers
  import opened Network
  import opened Nmea
  import opened Processes
  import opened Reachability
  import opened Csv

  /** What one iteration of the loop reads from outside. */
  datatype TickInput = TickInput(
    timestamp: int,              // int(round(time.time() * 1000)) - starting_time
    counters: Counters,          // psutil.net_io_counters()
    cpuProcesses: seq<Process>,  // the process table as cpu_measure enumerates it
    ramProcesses: seq<Process>,  // the process table as ram_measure enumerates it
    deviceOpens: bool,           // whether serial.Serial(...) succeeds
    gpsLines: seq<string>,       // the decoded lines readline() returns
    pingStatus: int,             // the exit status of the ping child
    elapsed: real)               // time.time() - start_time after the row is written

  /** The fields of a `Monitoring` object that the run changes. */
  datatype RecorderState = RecorderState(
    oldNetworkData: Option<Counters>,
    newNetworkData: Option<Counters>,
    gpsData: Triple,
    data: seq<Value>,
    csvFile: Option<seq<seq<Value>>>)

  /**
   * How a run ends: stopped after `iterations` loop iterations; ended by an
   * exception (no serial device, or the file missing); or still under way
   * when the supplied inputs end (no GGA line yet, or the clock has not yet
   * reached the duration).
   */
  datatype RunOutcome = Completed(iterations: nat) | Aborted | Waiting

  /** The state after a run, the rows it appended, and how it ended. */
  datatype RunResult = RunResult(state: RecorderState, written: seq<seq<Value>>, outcome: RunOutcome)

  /**
   * One loop iteration up to the stop test: it stops the run (by an exception
   * when `aborted`, otherwise because the inputs ended), or it appends `row`.
   */
  datatype TickResult = Stalled(state: RecorderState, aborted: bool) | Wrote(state: RecorderState, row: seq<Value>)

  /** The row contents of one tick, from its measurements. */
  function TickSample(t: TickInput, network: seq<int>, isTarget: real, position: Option<seq<real>>): Sample {
    Sample(
      t.timestamp, network,
      Total(Matching(t.cpuProcesses), CpuPercentOf), Total(Matching(t.cpuProcesses), CpuTime),
      Total(Matching(t.ramProcesses), MemoryPercentOf), TotalRss(Matching(t.ramProcesses)),
      if IsTarget(isTarget) then None else Some(Ping(t.pingStatus)),
      position)
  }

  /** `if gps_data:` — a returned triple is a non-empty list, so it is written. */
  function PositionOf(outcome: GpsOutcome): Option<seq<real>> {
    if outcome.Returned? then Some(outcome.fix) else None
  }

  /**
   * The body of the `get_data` loop up to the stop test: clear `data`, measure
   * the network, poll the GPS, assemble the row and append it to the file.
   */
  function Tick(st: RecorderState, t: TickInput, isTarget: real, parse: string -> Option<real>): (r: TickResult)
    ensures r.Wrote? ==> r.state.csvFile.Some? && r.state.data == r.row
  {
    var network := Deltas(t.counters, st.oldNetworkData.GetOr(t.counters));
    var poll := PollGps(st.gpsData, t.deviceOpens, t.gpsLines, parse);
    var measured := st.(oldNetworkData := Some(t.counters), newNetworkData := Some(t.counters),
                        gpsData := poll.stored, data := []);
    if poll.outcome.NoDevice? then Stalled(measured, true)
    else if poll.outcome.Pending? then Stalled(measured, false)
    else
      var row := EncodeRow(TickSample(t, network, isTarget, PositionOf(poll.outcome)));
      match AppendRow(measured.csvFile, row, false)
      case Raised => Stalled(measured.(data := row), true)
      case Appended(contents) => Wrote(measured.(data := row, csvFile := Some(contents)), row)
  }

  /** A loop body, as a value. */
  type Step = (RecorderState, TickInput) -> TickResult

  function TickStep(isTarget: real, parse: string -> Option<real>): Step {
    (s: RecorderState, t: TickInput) => Tick(s, t, isTarget, parse)
  }

  /** The write after the loop: `data` once more, or the exception of a missing file. */
  function Conclude(s: RecorderState, row: seq<Value>, iterations: nat): RunResult {
    match AppendRow(s.csvFile, row, false)
    case Raised => RunResult(s, [row], Aborted)
    case Appended(contents) => RunResult(s.(csvFile := Some(contents)), [row, row], Completed(iterations))
  }

  /**
   * The `while not stop` loop of `get_data` from iteration `i` on, for the
   * loop body `step`: iterate until an iteration ends with the elapsed time at
   * or past `duration`, then write the last row once more.
   */
  function RunLoop(step: Step, st: RecorderState, ticks: seq<TickInput>, i: nat, duration: real): RunResult
    requires i <= |ticks|
    decreases |ticks| - i
  {
    if i == |ticks| then RunResult(st, [], Waiting)
    else match step(st, ticks[i])
      case Stalled(s, aborted) => RunResult(s, [], if aborted then Aborted else Waiting)
      case Wrote(s, row) =>
        if ticks[i].elapsed >= duration then Conclude(s, row, i + 1)
        else
          var rest := RunLoop(step, s, ticks, i + 1, duration);
          rest.(written := [row] + rest.written)
  }

  /** `get_data` on the supplied ticks, from the state `st`. */
  function Run(st: RecorderState, ticks: seq<TickInput>, isTarget: real, duration: real,
               parse: string -> Option<real>): RunResult
  {
    RunLoop(TickStep(isTarget, parse), st, ticks, 0, duration)
  }

  /** `r` with the rows `rows` written before it. */
  function Prefixed(rows: seq<seq<Value>>, r: RunResult): RunResult {
    r.(written := rows + r.written)
  }

  /**
   * A completed run's shape, whatever the loop body: at least one iteration;
   * it stopped after the first iteration whose elapsed time reached the
   * duration; and it appended one row per iteration plus a copy of the last.
   */
  lemma {:induction false} CompletedRun(step: Step, st: RecorderState, ticks: seq<TickInput>, i: nat, duration: real)
    requires i <= |ticks|
    requires RunLoop(step, st, ticks, i, duration).outcome.Completed?
    ensures var r := RunLoop(step, st, ticks, i, duration);
            var n := r.outcome.iterations;
      && i < n <= |ticks|
      && ticks[n - 1].elapsed >= duration
      && (forall k :: i <= k < n - 1 ==> ticks[k].elapsed < duration)
      && |r.written| == n - i + 1
      && r.written[n - i - 1] == r.written[n - i]
    decreases |ticks| - i
  {
    var r := step(st, ticks[i]);
    if r.Wrote? && ticks[i].elapsed < duration {
      CompletedRun(step, r.state, ticks, i + 1, duration);
    }
  }

  /** The first row a run appends is the row of its first iteration. */
  lemma FirstRowOfRun(step: Step, st: RecorderState, ticks: seq<TickInput>, i: nat, duration: real)
    requires i < |ticks|
    requires |RunLoop(step, st, ticks, i, duration).written| > 0
    ensures step(st, ticks[i]).Wrote?
    ensures RunLoop(step, st, ticks, i, duration).written[0] == step(st, ticks[i]).row
  {
  }

  /** How one iteration changes the file: append its row, or nothing. */
  predicate StepAppends(s: RecorderState, r: TickResult) {
    match r
    case Wrote(s', row) => s.csvFile.Some? && s'.csvFile == Some(s.csvFile.value + [row]) && s'.data == row
    case Stalled(s', _) => s'.csvFile == s.csvFile
  }

  ghost predicate AppendsRow(step: Step) {
    forall s: RecorderState, t: TickInput :: StepAppends(s, step(s, t))
  }

  /**
   * For a body that appends its row or leaves the file alone, the file grows
   * by exactly the rows the run reports; a run without a file writes nothing
   * and never completes.
   */
  lemma {:induction false} RunAppends(step: Step, st: RecorderState, ticks: seq<TickInput>, i: nat, duration: real)
    requires AppendsRow(step)
    requires i <= |ticks|
    ensures var r := RunLoop(step, st, ticks, i, duration);
      && (st.csvFile.Some? ==> r.state.csvFile == Some(st.csvFile.value + r.written))
      && (st.csvFile.None? ==> r.written == [] && !r.outcome.Completed?)
    decreases |ticks| - i
  {
    if st.csvFile.Some? {
      assert st.csvFile.value + [] == st.csvFile.value;
    }
    if i < |ticks| {
      var r := step(st, ticks[i]);
      assert StepAppends(st, r);
      if r.Wrote? && ticks[i].elapsed < duration {
        RunAppends(step, r.state, ticks, i + 1, duration);
        var rest := RunLoop(step, r.state, ticks, i + 1, duration);
        assert RunLoop(step, st, ticks, i, duration) == rest.(written := [r.row] + rest.written);
        if st.csvFile.Some? {
          assert st.csvFile.value + [r.row] + rest.written == st.csvFile.value + ([r.row] + rest.written);
        }
      } else if r.Wrote? {
        assert st.csvFile.value + [r.row] + [r.row] == st.csvFile.value + [r.row, r.row];
      }
    }
  }

  /**
   * For a body that appends its row whenever the file exists on the ticks up
   * to the first one past the deadline, the run completes right after it.
   */
  lemma {:induction false} RunReachesDeadline(step: Step, st: RecorderState, ticks: seq<TickInput>, i: nat, j: nat,
                                              duration: real)
    requires AppendsRow(step)
    requires i <= j < |ticks|
    requires st.csvFile.Some?
    requires ticks[j].elapsed >= duration
    requires forall k :: i <= k < j ==> ticks[k].elapsed < duration
    requires forall k, s: RecorderState :: i <= k <= j && s.csvFile.Some? ==> step(s, ticks[k]).Wrote?
    ensures RunLoop(step, st, ticks, i, duration).outcome == Completed(j + 1)
    decreases |ticks| - i
  {
    var r := step(st, ticks[i]);
    assert StepAppends(st, r);
    if i < j {
      RunReachesDeadline(step, r.state, ticks, i + 1, j, duration);
    }
  }

  /**
   * A row that fits its run: it reads back as a sample, its ping cell is there
   * exactly when the run is not the target, and it is as wide as the header
   * when it has a position and three cells short when it has none.
   */
  predicate RowFitsRun(row: seq<Value>, isTarget: real) {
    && DecodeRow(row).Some?
    && (DecodeRow(row).value.ping.Some? <==> !IsTarget(isTarget))
    && |row| == |HeaderRow(isTarget)| - (if DecodeRow(row).value.position.Some? then 0 else 3)
  }

  predicate StepRowFits(r: TickResult, isTarget: real) {
    r.Wrote? ==> RowFitsRun(r.row, isTarget)
  }

  ghost predicate WritesFittingRows(step: Step, isTarget: real) {
    forall s: RecorderState, t: TickInput :: StepRowFits(step(s, t), isTarget)
  }

  /** For a body whose rows fit the run, every row the run appends fits it. */
  lemma {:induction false} RunRowsFit(step: Step, st: RecorderState, ticks: seq<TickInput>, i: nat, duration: real,
                                      isTarget: real)
    requires WritesFittingRows(step, isTarget)
    requires i <= |ticks|
    ensures forall k :: 0 <= k < |RunLoop(step, st, ticks, i, duration).written| ==>
      RowFitsRun(RunLoop(step, st, ticks, i, duration).written[k], isTarget)
    decreases |ticks| - i
  {
    if i < |ticks| {
      var r := step(st, ticks[i]);
      assert StepRowFits(r, isTarget);
      if r.Wrote? && ticks[i].elapsed < duration {
        RunRowsFit(step, r.state, ticks, i + 1, duration, isTarget);
        var rest := RunLoop(step, r.state, ticks, i + 1, duration);
        var rows := RunLoop(step, st, ticks, i, duration).written;
        assert rows == [r.row] + rest.written;
        forall k | 0 <= k < |rows|
          ensures RowFitsRun(rows[k], isTarget)
        {
          if k > 0 {
            assert rows[k] == rest.written[k - 1];
            assert RowFitsRun(rest.written[k - 1], isTarget);
          } else {
            assert rows[0] == r.row;
            assert RowFitsRun(r.row, isTarget);
          }
        }
      }
    }
  }

  /** An iteration writes its row exactly when the device opens, a GGA line arrives and the file exists. */
  lemma TickWrites(st: RecorderState, t: TickInput, isTarget: real, parse: string -> Option<real>)
    ensures Tick(st, t, isTarget, parse).Wrote?
        <==> t.deviceOpens && FirstSentence(t.gpsLines).Some? && st.csvFile.Some?
  {
    PollGpsFrame(st.gpsData, t.deviceOpens, t.gpsLines, parse);
  }

  /** The `get_data` body appends its row to an existing file, or leaves the file alone. */
  lemma TickAppendsRow(isTarget: real, parse: string -> Option<real>)
    ensures AppendsRow(TickStep(isTarget, parse))
  {
    forall s: RecorderState, t: TickInput
      ensures StepAppends(s, TickStep(isTarget, parse)(s, t))
    {
      TickWrites(s, t, isTarget, parse);
    }
  }

  /** The row of an iteration fits the run. */
  lemma TickRowFits(st: RecorderState, t: TickInput, isTarget: real, parse: string -> Option<real>)
    ensures StepRowFits(Tick(st, t, isTarget, parse), isTarget)
  {
    var poll := PollGps(st.gpsData, t.deviceOpens, t.gpsLines, parse);
    var network := Deltas(t.counters, st.oldNetworkData.GetOr(t.counters));
    var s := TickSample(t, network, isTarget, PositionOf(poll.outcome));
    DecodeEncode(s);
    RowAgainstHeader(s, isTarget);
  }

  /**
   * A written row reads back as the tick's sample: the deltas over the stored
   * snapshot, the sums over the `ros2` processes, the ping flag unless this is
   * the target, and the position exactly when the poll returned the triple.
   * The poll then either returned or swallowed a `float()` failure, and the
   * row is three cells short of the header exactly in the second case.
   */
  lemma TickRowReadsBack(st: RecorderState, t: TickInput, isTarget: real, parse: string -> Option<real>)
    requires Tick(st, t, isTarget, parse).Wrote?
    ensures var poll := PollGps(st.gpsData, t.deviceOpens, t.gpsLines, parse);
            var network := Deltas(t.counters, st.oldNetworkData.GetOr(t.counters));
            var r := Tick(st, t, isTarget, parse);
      && (poll.outcome.Returned? || poll.outcome.Swallowed?)
      && DecodeRow(r.row) == Some(TickSample(t, network, isTarget, PositionOf(poll.outcome)))
      && (DecodeRow(r.row).value.position.Some? <==> poll.outcome.Returned?)
      && |r.row| == |HeaderRow(isTarget)| - (if poll.outcome.Swallowed? then 3 else 0)
      && r.row[1..9] == IntCells(network)
      && r.state.oldNetworkData == Some(t.counters)
  {
    var poll := PollGps(st.gpsData, t.deviceOpens, t.gpsLines, parse);
    PollGpsFrame(st.gpsData, t.deviceOpens, t.gpsLines, parse);
    var network := Deltas(t.counters, st.oldNetworkData.GetOr(t.counters));
    var s := TickSample(t, network, isTarget, PositionOf(poll.outcome));
    DecodeEncode(s);
    RowAgainstHeader(s, isTarget);
    RowLayout(s);
    assert EncodeRow(s)[1..9] == IntCells(network);
  }

  /** The counter snapshots of the ticks, in order. */
  function CountersOf(ticks: seq<TickInput>): (cs: seq<Counters>)
    ensures |cs| == |ticks| && forall k :: 0 <= k < |ticks| ==> cs[k] == ticks[k].counters
  {
    seq(|ticks|, k requires 0 <= k < |ticks| => ticks[k].counters)
  }

  lemma CountersOfSlice(ticks: seq<TickInput>, i: nat, j: nat)
    requires i < j <= |ticks|
    ensures CountersOf(ticks[i..j]) == [ticks[i].counters] + CountersOf(ticks[i + 1..j])
  {
  }

  /** The number of rows a run appends inside the loop: all but the copy of the final write. */
  function LoopRows(r: RunResult): nat {
    if r.outcome.Completed? && |r.written| > 0 then |r.written| - 1 else |r.written|
  }

  /**
   * An iteration that writes puts the deltas over the stored snapshot in
   * cells 1 to 8 and stores the new snapshot.
   */
  predicate StepMeasures(s: RecorderState, t: TickInput, r: TickResult) {
    r.Wrote? ==>
      && |r.row| >= 9
      && r.row[1..9] == IntCells(Deltas(t.counters, s.oldNetworkData.GetOr(t.counters)))
      && r.state.oldNetworkData == Some(t.counters)
  }

  ghost predicate MeasuresNetwork(step: Step) {
    forall s: RecorderState, t: TickInput :: StepMeasures(s, t, step(s, t))
  }

  /** Row `k` carrying delta row `k`, kept when a row and its deltas are put in front. */
  lemma PrependNetworkCells(row: seq<Value>, rows: seq<seq<Value>>, d: seq<int>, later: seq<seq<int>>, m: nat)
    requires m <= |rows| && |later| == m
    requires 9 <= |row| && row[1..9] == IntCells(d)
    requires forall k :: 0 <= k < m ==> 9 <= |rows[k]| && rows[k][1..9] == IntCells(later[k])
    ensures forall k :: 0 <= k < m + 1 ==>
      9 <= |([row] + rows)[k]| && ([row] + rows)[k][1..9] == IntCells(([d] + later)[k])
  {
    forall k | 0 <= k < m + 1
      ensures 9 <= |([row] + rows)[k]| && ([row] + rows)[k][1..9] == IntCells(([d] + later)[k])
    {
      if k > 0 {
        assert ([row] + rows)[k] == rows[k - 1];
        assert ([d] + later)[k] == later[k - 1];
      }
    }
  }

  /**
   * The rows `r` appends inside the loop, from iteration `i` on, carry in
   * cells 1 to 8 the successive `network_measure` results for the counters of
   * those iterations, starting from the stored snapshot `previous`.
   */
  ghost predicate NetworkCellsMatch(r: RunResult, previous: Option<Counters>, ticks: seq<TickInput>, i: nat) {
    && i + LoopRows(r) <= |ticks|
    && forall k :: 0 <= k < LoopRows(r) ==>
         9 <= |r.written[k]|
         && r.written[k][1..9] == IntCells(Outputs(previous, CountersOf(ticks[i..i + LoopRows(r)]))[k])
  }

  /** The iteration that reaches the deadline writes the last loop row. */
  lemma NetworkCellsLast(step: Step, st: RecorderState, ticks: seq<TickInput>, i: nat, duration: real)
    requires MeasuresNetwork(step)
    requires i < |ticks| && step(st, ticks[i]).Wrote? && ticks[i].elapsed >= duration
    ensures NetworkCellsMatch(RunLoop(step, st, ticks, i, duration), st.oldNetworkData, ticks, i)
  {
    var t := ticks[i];
    var r := step(st, t);
    assert StepMeasures(st, t, r);
    var whole := RunLoop(step, st, ticks, i, duration);
    assert whole == Conclude(r.state, r.row, i + 1);
    assert LoopRows(whole) == 1 && whole.written[0] == r.row;
    assert CountersOf(ticks[i..i + 1]) == [t.counters];
    OutputsCons(st.oldNetworkData, t.counters, []);
  }

  /** `network_measure` over the counters of ticks `i` to `i + m`, first step apart. */
  lemma OutputsOfTicks(previous: Option<Counters>, ticks: seq<TickInput>, i: nat, m: nat)
    requires i + m + 1 <= |ticks|
    ensures var c := ticks[i].counters;
      Outputs(previous, CountersOf(ticks[i..i + m + 1]))
      == [Deltas(c, previous.GetOr(c))] + Outputs(Some(c), CountersOf(ticks[i + 1..i + 1 + m]))
  {
    CountersOfSlice(ticks, i, i + m + 1);
    OutputsCons(previous, ticks[i].counters, CountersOf(ticks[i + 1..i + 1 + m]));
  }

  /**
   * An iteration that writes before the deadline adds its row in front of
   * the rows of the rest of the run, inside the loop as well as overall.
   */
  lemma RowBeforeRest(step: Step, st: RecorderState, ticks: seq<TickInput>, i: nat, duration: real)
    requires i < |ticks| && step(st, ticks[i]).Wrote? && ticks[i].elapsed < duration
    ensures var r := step(st, ticks[i]);
            var rest := RunLoop(step, r.state, ticks, i + 1, duration);
            var whole := RunLoop(step, st, ticks, i, duration);
      && whole.written == [r.row] + rest.written
      && LoopRows(whole) == LoopRows(rest) + 1
  {
    var r := step(st, ticks[i]);
    var rest := RunLoop(step, r.state, ticks, i + 1, duration);
    if rest.outcome.Completed? {
      CompletedRun(step, r.state, ticks, i + 1, duration);
    }
  }

  /** An iteration before the deadline puts its row in front of the rows of the rest of the run. */
  lemma NetworkCellsNext(step: Step, st: RecorderState, ticks: seq<TickInput>, i: nat, duration: real)
    requires MeasuresNetwork(step)
    requires i < |ticks| && step(st, ticks[i]).Wrote? && ticks[i].elapsed < duration
    requires var s := step(st, ticks[i]).state;
      NetworkCellsMatch(RunLoop(step, s, ticks, i + 1, duration), s.oldNetworkData, ticks, i + 1)
    ensures NetworkCellsMatch(RunLoop(step, st, ticks, i, duration), st.oldNetworkData, ticks, i)
  {
    var t := ticks[i];
    var r := step(st, t);
    assert StepMeasures(st, t, r);
    var d := Deltas(t.counters, st.oldNetworkData.GetOr(t.counters));
    var rest := RunLoop(step, r.state, ticks, i + 1, duration);
    RowBeforeRest(step, st, ticks, i, duration);
    var m := LoopRows(rest);
    var later := Outputs(Some(t.counters), CountersOf(ticks[i + 1..i + 1 + m]));
    OutputsOfTicks(st.oldNetworkData, ticks, i, m);
    PrependNetworkCells(r.row, rest.written, d, later, m);
  }

  /**
   * For a body that measures the network, the network cells of the rows
   * written inside the loop, from iteration `i` on, are the successive
   * `network_measure` results `Outputs` for the counters of those iterations,
   * starting from the stored snapshot.
   */
  lemma {:induction false} RunNetworkCells(step: Step, st: RecorderState, ticks: seq<TickInput>, i: nat,
                                           duration: real)
    requires MeasuresNetwork(step)
    requires i <= |ticks|
    ensures NetworkCellsMatch(RunLoop(step, st, ticks, i, duration), st.oldNetworkData, ticks, i)
    decreases |ticks| - i
  {
    if i < |ticks| {
      var r := step(st, ticks[i]);
      if r.Wrote? {
        if ticks[i].elapsed >= duration {
          NetworkCellsLast(step, st, ticks, i, duration);
        } else {
          RunNetworkCells(step, r.state, ticks, i + 1, duration);
          NetworkCellsNext(step, st, ticks, i, duration);
        }
      }
    }
  }

  /**
   * The network cells of `get_data`'s rows, apart from the copy of the final
   * write, are the successive `network_measure` results for the counters of
   * its iterations; column by column they add up as `Network.Telescoping` says.
   */
  lemma RunNetworkColumns(st: RecorderState, ticks: seq<TickInput>, isTarget: real, duration: real,
                          parse: string -> Option<real>)
    ensures var r := Run(st, ticks, isTarget, duration, parse);
            var m := LoopRows(r);
      && m <= |ticks|
      && forall k :: 0 <= k < m ==>
           9 <= |r.written[k]|
           && r.written[k][1..9] == IntCells(Outputs(st.oldNetworkData, CountersOf(ticks[..m]))[k])
  {
    forall s: RecorderState, t: TickInput
      ensures StepMeasures(s, t, TickStep(isTarget, parse)(s, t))
    {
      if Tick(s, t, isTarget, parse).Wrote? {
        TickRowReadsBack(s, t, isTarget, parse);
      }
    }
    RunNetworkCells(TickStep(isTarget, parse), st, ticks, 0, duration);
    assert ticks[0..] == ticks;
  }

  /**
   * The file of a run grows by exactly the rows it reports, and every one of
   * them fits the run.
   */
  lemma RunFileGrowth(st: RecorderState, ticks: seq<TickInput>, isTarget: real, duration: real,
                      parse: string -> Option<real>)
    requires st.csvFile.Some?
    ensures var r := Run(st, ticks, isTarget, duration, parse);
      && r.state.csvFile == Some(st.csvFile.value + r.written)
      && forall k :: 0 <= k < |r.written| ==> RowFitsRun(r.written[k], isTarget)
  {
    TickAppendsRow(isTarget, parse);
    RunAppends(TickStep(isTarget, parse), st, ticks, 0, duration);
    forall s: RecorderState, t: TickInput
      ensures StepRowFits(TickStep(isTarget, parse)(s, t), isTarget)
    {
      TickRowFits(s, t, isTarget, parse);
    }
    RunRowsFit(TickStep(isTarget, parse), st, ticks, 0, duration, isTarget);
  }

  /**
   * With an existing file, and the device opening and a GGA line arriving on
   * every tick up to the first one past the deadline, `get_data` completes
   * right after that tick.
   */
  lemma RunCompletesAtDeadline(st: RecorderState, ticks: seq<TickInput>, j: nat, isTarget: real, duration: real,
                               parse: string -> Option<real>)
    requires j < |ticks|
    requires st.csvFile.Some?
    requires ticks[j].elapsed >= duration
    requires forall k :: 0 <= k < j ==> ticks[k].elapsed < duration
    requires forall k :: 0 <= k <= j ==> ticks[k].deviceOpens && FirstSentence(ticks[k].gpsLines).Some?
    ensures Run(st, ticks, isTarget, duration, parse).outcome == Completed(j + 1)
  {
    TickAppendsRow(isTarget, parse);
    forall k, s: RecorderState | 0 <= k <= j && s.csvFile.Some?
      ensures TickStep(isTarget, parse)(s, ticks[k]).Wrote?
    {
      TickWrites(s, ticks[k], isTarget, parse);
    }
    RunReachesDeadline(TickStep(isTarget, parse), st, ticks, 0, j, duration);
  }

  /** With no stored snapshot, the first row of a run reports eight zero network deltas. */
  lemma FirstRowQuiet(st: RecorderState, ticks: seq<TickInput>, isTarget: real, duration: real,
                      parse: string -> Option<real>)
    requires st.oldNetworkData.None?
    ensures var rows := Run(st, ticks, isTarget, duration, parse).written;
            |rows| > 0 ==> rows[0][1..9] == IntCells(ZeroDeltas())
  {
    if |Run(st, ticks, isTarget, duration, parse).written| == 0 {
      return;
    }
    var t := ticks[0];
    FirstRowOfRun(TickStep(isTarget, parse), st, ticks, 0, duration);
    var poll := PollGps(st.gpsData, t.deviceOpens, t.gpsLines, parse);
    DeltasOfSameSnapshot(t.counters);
    var s := TickSample(t, Deltas(t.counters, t.counters), isTarget, PositionOf(poll.outcome));
    RowLayout(s);
    assert EncodeRow(s)[1..9] == IntCells(ZeroDeltas());
  }

  /** The `Monitoring` object of one run. */
  class Monitoring {
    const experimentDuration: real
    const isTarget: real
    const tableRow: seq<string>
    const gpsData: array<real>
    var data: seq<Value>
    var oldNetworkData: Option<Counters>
    var newNetworkData: Option<Counters>
    var csvFile: Option<seq<seq<Value>>>

    ghost predicate Valid()
      reads this
    {
      gpsData.Length == 3
    }

    /** The fields the run changes, as a value. */
    ghost function State(): RecorderState
      reads this, gpsData
      requires Valid()
    {
      RecorderState(oldNetworkData, newNetworkData, gpsData[..], data, csvFile)
    }

    /**
     * `__init__` up to `get_data`: the header, the empty row buffer, no stored
     * snapshot, the all-zero GPS triple, and a file holding just the header.
     */
    constructor (experimentDurationP: real, isTargetP: real)
      ensures Valid() && fresh(gpsData)
      ensures experimentDuration == experimentDurationP && isTarget == isTargetP
      ensures tableRow == HeaderRow(isTargetP)
      ensures State() == RecorderState(None, None, [0.0, 0.0, 0.0], [], Some([TextRow(tableRow)]))
    {
      experimentDuration := experimentDurationP;
      isTarget := isTargetP;
      var row := BaseColumns;
      if !IsTarget(isTargetP) {
        row := row + [PingColumn];
      }
      // The source tests the bound method `self.get_gps_data`, which is always truthy.
      row := row + PositionColumns;
      tableRow := row;
      data := [];
      oldNetworkData := None;
      newNetworkData := None;
      gpsData := new real[3](_ => 0.0);
      csvFile := None;
      new;
      CreateCsv();
    }

    /** `create_csv`: (re)create the file holding just the header row. */
    method CreateCsv()
      modifies this`csvFile
      ensures csvFile == Some([TextRow(tableRow)])
    {
      csvFile := Some([TextRow(tableRow)]);
    }

    /** `write_csv(force_p)`: append `data`, or raise when the file is missing and not forced. */
    method WriteCsv(force: bool) returns (raised: bool)
      modifies this`csvFile
      ensures match AppendRow(old(csvFile), data, force)
              case Raised => raised && csvFile == old(csvFile)
              case Appended(contents) => !raised && csvFile == Some(contents)
    {
      if csvFile.Some? {
        csvFile := Some(csvFile.value + [data]);
        raised := false;
      } else if force {
        // append mode creates the missing file
        csvFile := Some([data]);
        raised := false;
      } else {
        raised := true;
      }
    }

    /**
     * `network_measure`: the deltas of `current` over the stored snapshot
     * (over `current` itself when none is stored, so all zero), after which
     * `current` is the stored snapshot.
     */
    method NetworkMeasure(current: Counters) returns (networkResult: seq<int>)
      modifies this`oldNetworkData, this`newNetworkData
      ensures networkResult == Deltas(current, old(oldNetworkData).GetOr(current))
      ensures old(oldNetworkData).None? ==> networkResult == ZeroDeltas()
      ensures old(oldNetworkData).Some? ==>
        forall k :: 0 <= k < DeltaCount ==> networkResult[k] == Field(current, k) - Field(old(oldNetworkData).value, k)
      ensures oldNetworkData == Some(current) && newNetworkData == Some(current)
    {
      newNetworkData := Some(current);
      if oldNetworkData == None {
        oldNetworkData := newNetworkData;
      }
      var n, o := newNetworkData.value, oldNetworkData.value;
      networkResult := [];
      networkResult := networkResult + [n.bytesSent - o.bytesSent];
      networkResult := networkResult + [n.bytesRecv - o.bytesRecv];
      networkResult := networkResult + [n.packetsSent - o.packetsSent];
      networkResult := networkResult + [n.packetsRecv - o.packetsRecv];
      networkResult := networkResult + [n.errout - o.errout];
      networkResult := networkResult + [n.errin - o.errin];
      networkResult := networkResult + [n.dropin - o.dropin];
      networkResult := networkResult + [n.dropout - o.dropout];
      oldNetworkData := newNetworkData;
    }

    /**
     * The update of `get_gps_data` for the fields of the first GGA line:
     * when they pass the guard, parse and store latitude, longitude and
     * altitude in turn; `swallowed` reports a `float()` failure, which the
     * `except` clause absorbs after the entries stored so far.
     */
    method StoreFix(fields: seq<string>, parse: string -> Option<real>) returns (swallowed: bool)
      requires Valid()
      modifies gpsData
      ensures var r := ApplySentence(old(gpsData[..]), fields, parse);
              gpsData[..] == r.stored && swallowed == r.outcome.Swallowed?
    {
      swallowed := false;
      if |fields| > 9 && fields[2] != "" && fields[4] != "" && fields[9] != "" {
        var latitude := parse(fields[2]);
        if latitude.None? {
          return true;
        }
        gpsData[0] := NmeaToDecimalDegrees(latitude.value, fields[3]);
        var longitude := parse(fields[4]);
        if longitude.None? {
          return true;
        }
        gpsData[1] := NmeaToDecimalDegrees(longitude.value, fields[5]);
        var altitude := parse(fields[9]);
        if altitude.None? {
          return true;
        }
        gpsData[2] := altitude.value;
      }
    }

    /**
     * `get_gps_data`: read lines until the first GGA line, update the triple
     * in place when its fields pass the guard, and hand the triple back.
     */
    method GetGpsData(deviceOpens: bool, lines: seq<string>, parse: string -> Option<real>) returns (outcome: GpsOutcome)
      requires Valid()
      modifies gpsData
      ensures PollGps(old(gpsData[..]), deviceOpens, lines, parse) == PollResult(gpsData[..], outcome)
    {
      if !deviceOpens {
        // serial.Serial raises before the `try`
        return NoDevice;
      }
      var receivedData := false;
      var i := 0;
      while !receivedData && i < |lines|
        invariant 0 <= i <= |lines|
        invariant !receivedData ==> gpsData[..] == old(gpsData[..])
        invariant !receivedData ==> forall k :: 0 <= k < i ==> !IsGga(lines[k])
        invariant receivedData ==> 0 < i && FirstSentence(lines) == Some(i - 1)
        invariant receivedData ==>
          ApplySentence(old(gpsData[..]), SentenceFields(lines[i - 1]), parse) == PollResult(gpsData[..], Returned(gpsData[..]))
      {
        var line := Text.Strip(lines[i]);
        if Text.StartsWith(line, SentencePrefix) {
          receivedData := true;
          assert IsGga(lines[i]);
          var fields := Text.Split(line, ',');
          ghost var before := gpsData[..];
          var swallowed := StoreFix(fields, parse);
          ApplySentenceFrame(before, fields, parse);
          if swallowed {
            // the `except` clause: the poll returns None
            return Swallowed;
          }
        }
        i := i + 1;
      }
      if !receivedData {
        // the supplied lines end before a GGA line arrives
        return Pending;
      }
      outcome := Returned(gpsData[..]);
    }

    /**
     * One iteration of the `get_data` loop up to the stop test, as `Tick`
     * describes it; `wrote` says the row was appended, and otherwise
     * `aborted` says an exception ended the run.
     */
    method SampleTick(t: TickInput, parse: string -> Option<real>) returns (wrote: bool, aborted: bool)
      requires Valid()
      modifies this, gpsData
      ensures Valid()
      ensures var r := Tick(old(State()), t, isTarget, parse);
              State() == r.state && wrote == r.Wrote? && (r.Stalled? ==> aborted == r.aborted)
    {
      data := [];
      var networkResult := NetworkMeasure(t.counters);
      var cpuPercent, cpuTime := CpuMeasure(t.cpuProcesses);
      var ramPercent, ramInfo := RamMeasure(t.ramProcesses);
      var gps := GetGpsData(t.deviceOpens, t.gpsLines, parse);
      if gps.NoDevice? {
        return false, true;
      }
      if gps.Pending? {
        return false, false;
      }
      var pingTarget := Ping(t.pingStatus);
      data := EncodeRow(Sample(
        t.timestamp, networkResult, cpuPercent, cpuTime, ramPercent, ramInfo,
        if !IsTarget(isTarget) then Some(pingTarget) else None,
        if gps.Returned? then Some(gps.fix) else None));
      var raised := WriteCsv(false);
      if raised {
        return false, true;
      }
      return true, false;
    }

    /**
     * `get_data`: iterate over the supplied ticks until one ends at or past
     * the experiment duration, then write the last row once more.
     */
    method GetData(ticks: seq<TickInput>, parse: string -> Option<real>) returns (outcome: RunOutcome)
      requires Valid()
      modifies this, gpsData
      ensures Valid()
      ensures var r := Run(old(State()), ticks, isTarget, experimentDuration, parse);
              State() == r.state && outcome == r.outcome
    {
      ghost var start := State();
      ghost var step := TickStep(isTarget, parse);
      ghost var written: seq<seq<Value>> := [];
      var stop := false;
      var i := 0;
      while !stop
        invariant 0 <= i <= |ticks|
        invariant Valid()
        invariant !stop ==>
          Run(start, ticks, isTarget, experimentDuration, parse)
          == Prefixed(written, RunLoop(step, State(), ticks, i, experimentDuration))
        invariant stop ==> 0 < i
        invariant stop ==>
          Run(start, ticks, isTarget, experimentDuration, parse) == Prefixed(written, Conclude(State(), data, i))
        decreases (if stop then 0 else 1), |ticks| - i
      {
        if i == |ticks| {
          // the supplied clock ends before the duration is reached
          return Waiting;
        }
        var wrote, aborted := SampleTick(ticks[i], parse);
        if !wrote {
          return if aborted then Aborted else Waiting;
        }
        if ticks[i].elapsed >= experimentDuration {
          stop := true;
        } else {
          written := written + [data];
        }
        i := i + 1;
      }
      var raised := WriteCsv(false);
      if raised {
        outcome := Aborted;
      } else {
        outcome := Completed(i);
      }
    }
  }
}
