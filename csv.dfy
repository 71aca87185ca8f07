/**
 * The layout of the output file: the header of `__init__`, the row
 * `get_data` assembles each tick, and the append of `write_csv`.
 */
module Csv {
  import opened Wrappers

  /** One cell of the file: an integer, a float, or a column name. */
  datatype Value = IntV(i: int) | RealV(r: real) | Name(s: string)

  /** Python truthiness of the `is_target` argument (parsed as a float). */
  predicate IsTarget(isTarget: real) {
    isTarget != 0.0
  }

  /** The thirteen columns every row starts with. */
  const BaseColumns: seq<string> := [
    "Timestamp", "Bytes_Send", "Bytes_Received", "Packets_Send", "Packets_Received",
    "Errors_Send", "Errors_Received", "Drop_Incoming", "Drop_total",
    "CPU_percent", "CPU_time", "RAM_percent", "RAM_info"]

  const PingColumn: string := "Ping_target"

  const PositionColumns: seq<string> := ["LAT", "LONG", "ALT"]

  /**
   * `table_row`: the base columns, the ping column unless this is the target,
   * and the position columns always, because the test on them is the bound
   * method `self.get_gps_data`, which is always truthy.
   */
  function HeaderRow(isTarget: real): (names: seq<string>)
    ensures |names| == |BaseColumns| + (if IsTarget(isTarget) then 0 else 1) + |PositionColumns|
    ensures names[..13] == BaseColumns && names[|names| - 3..] == PositionColumns
    ensures !IsTarget(isTarget) <==> PingColumn in names
  {
    BaseColumns + (if !IsTarget(isTarget) then [PingColumn] else []) + PositionColumns
  }

  /** A row of column names as it is written to the file. */
  function TextRow(names: seq<string>): (row: seq<Value>)
    ensures |row| == |names| && forall k :: 0 <= k < |row| ==> row[k] == Name(names[k])
  {
    seq(|names|, k requires 0 <= k < |names| => Name(names[k]))
  }

  /**
   * The contents of one tick's row: elapsed milliseconds, the eight network
   * deltas, the CPU and RAM sums, the ping flag when that column is written,
   * and the position triple when the poll returned one.
   */
  datatype Sample = Sample(
    timestamp: int,
    network: seq<int>,
    cpuPercent: real, cpuTime: real,
    ramPercent: real, ramInfo: int,
    ping: Option<int>,
    position: Option<seq<real>>)

  predicate WellShaped(s: Sample) {
    |s.network| == 8 && (s.position.Some? ==> |s.position.value| == 3)
  }

  function IntCells(xs: seq<int>): (cells: seq<Value>)
    ensures |cells| == |xs| && forall k :: 0 <= k < |xs| ==> cells[k] == IntV(xs[k])
  {
    seq(|xs|, k requires 0 <= k < |xs| => IntV(xs[k]))
  }

  function RealCells(xs: seq<real>): (cells: seq<Value>)
    ensures |cells| == |xs| && forall k :: 0 <= k < |xs| ==> cells[k] == RealV(xs[k])
  {
    seq(|xs|, k requires 0 <= k < |xs| => RealV(xs[k]))
  }

  /** `self.data` as `get_data` fills it, one append per cell. */
  function EncodeRow(s: Sample): seq<Value>
    requires WellShaped(s)
  {
    [IntV(s.timestamp)] + IntCells(s.network)
    + [RealV(s.cpuPercent), RealV(s.cpuTime), RealV(s.ramPercent), IntV(s.ramInfo)]
    + (if s.ping.Some? then [IntV(s.ping.value)] else [])
    + (if s.position.Some? then RealCells(s.position.value) else [])
  }

  predicate AllInts(cells: seq<Value>) {
    forall k :: 0 <= k < |cells| ==> cells[k].IntV?
  }

  predicate AllReals(cells: seq<Value>) {
    forall k :: 0 <= k < |cells| ==> cells[k].RealV?
  }

  function IntsOf(cells: seq<Value>): (xs: seq<int>)
    requires AllInts(cells)
    ensures |xs| == |cells| && forall k :: 0 <= k < |xs| ==> cells[k] == IntV(xs[k])
  {
    seq(|cells|, k requires 0 <= k < |cells| => cells[k].i)
  }

  function RealsOf(cells: seq<Value>): (xs: seq<real>)
    requires AllReals(cells)
    ensures |xs| == |cells| && forall k :: 0 <= k < |xs| ==> cells[k] == RealV(xs[k])
  {
    seq(|cells|, k requires 0 <= k < |cells| => cells[k].r)
  }

  /**
   * Reads a row back: its length (13, 14, 16 or 17) says which optional
   * columns it has, and every cell must have the kind its column holds.
   */
  function DecodeRow(row: seq<Value>): Option<Sample> {
    var hasPing := |row| == 14 || |row| == 17;
    var hasPosition := |row| == 16 || |row| == 17;
    if !(|row| == 13 || hasPing || hasPosition) then None
    else if !(row[0].IntV? && AllInts(row[1..9]) && row[9].RealV? && row[10].RealV?
              && row[11].RealV? && row[12].IntV?) then None
    else if hasPing && !row[13].IntV? then None
    else if hasPosition && !AllReals(row[|row| - 3..]) then None
    else Some(Sample(
      row[0].i, IntsOf(row[1..9]), row[9].r, row[10].r, row[11].r, row[12].i,
      if hasPing then Some(row[13].i) else None,
      if hasPosition then Some(RealsOf(row[|row| - 3..])) else None))
  }

  /**
   * The cell layout of a row: its width, the fixed cells in front, the ping
   * cell right after them, and the position cells at the end.
   */
  lemma RowLayout(s: Sample)
    requires WellShaped(s)
    ensures var row := EncodeRow(s);
      && |row| == 13 + (if s.ping.Some? then 1 else 0) + (if s.position.Some? then 3 else 0)
      && row[0] == IntV(s.timestamp)
      && (forall k :: 0 <= k < 8 ==> row[1 + k] == IntV(s.network[k]))
      && row[9] == RealV(s.cpuPercent) && row[10] == RealV(s.cpuTime)
      && row[11] == RealV(s.ramPercent) && row[12] == IntV(s.ramInfo)
      && (s.ping.Some? ==> row[13] == IntV(s.ping.value))
      && (s.position.Some? ==> forall k :: 0 <= k < 3 ==> row[|row| - 3 + k] == RealV(s.position.value[k]))
  {
  }

  /** Every row reads back as the sample it was written from. */
  lemma DecodeEncode(s: Sample)
    requires WellShaped(s)
    ensures DecodeRow(EncodeRow(s)) == Some(s)
  {
    var row := EncodeRow(s);
    RowLayout(s);
    assert row[1..9] == IntCells(s.network);
    assert IntsOf(row[1..9]) == s.network;
    if s.position.Some? {
      assert row[|row| - 3..] == RealCells(s.position.value);
      assert RealsOf(row[|row| - 3..]) == s.position.value;
    }
  }

  /** A row that reads back came from exactly the sample it reads as. */
  lemma EncodeDecode(row: seq<Value>)
    requires DecodeRow(row).Some?
    ensures WellShaped(DecodeRow(row).value)
    ensures EncodeRow(DecodeRow(row).value) == row
  {
    var s := DecodeRow(row).value;
    RowLayout(s);
    var again := EncodeRow(s);
    assert |again| == |row|;
    forall k | 0 <= k < |row|
      ensures again[k] == row[k]
    {
      if 1 <= k < 9 {
        assert row[1..9][k - 1] == row[k];
      } else if k >= 13 && s.position.Some? && k >= |row| - 3 {
        assert row[|row| - 3..][k - (|row| - 3)] == row[k];
      }
    }
  }

  /**
   * Against the header: a row whose ping cell follows the run's target flag is
   * as wide as the header when it has a position, and three cells short otherwise.
   */
  lemma RowAgainstHeader(s: Sample, isTarget: real)
    requires WellShaped(s)
    requires s.ping.Some? <==> !IsTarget(isTarget)
    ensures |EncodeRow(s)| == |HeaderRow(isTarget)| - (if s.position.Some? then 0 else 3)
  {
    RowLayout(s);
  }

  /** The result of `write_csv`: the new file contents, or the exception it raises. */
  datatype WriteResult = Appended(contents: seq<seq<Value>>) | Raised

  /**
   * `write_csv(force_p)`: append `row` when the file exists or `force` is set
   * (opening for append creates a missing file); raise otherwise.
   */
  function AppendRow(file: Option<seq<seq<Value>>>, row: seq<Value>, force: bool): (r: WriteResult)
    ensures r.Raised? <==> file.None? && !force
    ensures r.Appended? ==> r.contents == file.GetOr([]) + [row]
  {
    if file.Some? then Appended(file.value + [row])
    else if force then Appended([row])
    else Raised
  }
}
