/**
 * The counter-delta tracker: the system-wide cumulative network counters and
 * the eight per-interval differences `network_measure` reports.
 */
module Network {
  import opened Wrappers

  /** One snapshot of the cumulative counters (`psutil.net_io_counters()`). */
  datatype Counters = Counters(
    bytesSent: nat, bytesRecv: nat,
    packetsSent: nat, packetsRecv: nat,
    errin: nat, errout: nat,
    dropin: nat, dropout: nat)

  /** Number of deltas in one network measurement. */
  const DeltaCount: nat := 8

  /**
   * Counter number `k` in the order the deltas are reported: bytes sent,
   * bytes received, packets sent, packets received, send errors (`errout`),
   * receive errors (`errin`), incoming drops, outgoing drops.
   */
  function Field(c: Counters, k: nat): nat
    requires k < DeltaCount
  {
    match k
    case 0 => c.bytesSent
    case 1 => c.bytesRecv
    case 2 => c.packetsSent
    case 3 => c.packetsRecv
    case 4 => c.errout
    case 5 => c.errin
    case 6 => c.dropin
    case _ => c.dropout
  }

  /**
   * The eight differences `newer - older`, field by field, in reporting order.
   * No wrap-around handling: a counter that went down gives a negative delta.
   */
  function Deltas(newer: Counters, older: Counters): (d: seq<int>)
    ensures |d| == DeltaCount
    ensures forall k :: 0 <= k < DeltaCount ==> d[k] == Field(newer, k) - Field(older, k)
  {
    [ newer.bytesSent - older.bytesSent,
      newer.bytesRecv - older.bytesRecv,
      newer.packetsSent - older.packetsSent,
      newer.packetsRecv - older.packetsRecv,
      newer.errout - older.errout,
      newer.errin - older.errin,
      newer.dropin - older.dropin,
      newer.dropout - older.dropout ]
  }

  /** The eight zero deltas of a first measurement. */
  function ZeroDeltas(): seq<int> {
    [0, 0, 0, 0, 0, 0, 0, 0]
  }

  /**
   * The snapshot reached from `older` by adding the deltas `d`, or `None`
   * when a counter would become negative.
   */
  function Advance(older: Counters, d: seq<int>): Option<Counters>
    requires |d| == DeltaCount
  {
    if forall k :: 0 <= k < DeltaCount ==> Field(older, k) + d[k] >= 0 then
      Some(Counters(
        older.bytesSent + d[0], older.bytesRecv + d[1],
        older.packetsSent + d[2], older.packetsRecv + d[3],
        older.errin + d[5], older.errout + d[4],
        older.dropin + d[6], older.dropout + d[7]))
    else None
  }

  /** Adding the deltas of `newer` over `older` back onto `older` gives `newer`. */
  lemma AdvanceDeltas(newer: Counters, older: Counters)
    ensures Advance(older, Deltas(newer, older)) == Some(newer)
  {
    var d := Deltas(newer, older);
    forall k | 0 <= k < DeltaCount
      ensures Field(older, k) + d[k] >= 0
    {
    }
  }

  /** The deltas between `older` and any snapshot reached from it are the deltas added. */
  lemma DeltasAdvance(older: Counters, d: seq<int>)
    requires |d| == DeltaCount
    requires Advance(older, d).Some?
    ensures Deltas(Advance(older, d).value, older) == d
  {
    var newer := Advance(older, d).value;
    assert forall k :: 0 <= k < DeltaCount ==> Field(newer, k) == Field(older, k) + d[k];
  }

  /** Comparing a snapshot with itself gives all-zero deltas. */
  lemma DeltasOfSameSnapshot(c: Counters)
    ensures Deltas(c, c) == ZeroDeltas()
  {
  }

  /**
   * The results of successive `network_measure` calls fed the snapshots
   * `snapshots`, starting from the stored snapshot `previous`.
   */
  function Outputs(previous: Option<Counters>, snapshots: seq<Counters>): (out: seq<seq<int>>)
    ensures |out| == |snapshots|
    ensures forall j :: 0 <= j < |out| ==> |out[j]| == DeltaCount
    decreases |snapshots|
  {
    if |snapshots| == 0 then []
    else [Deltas(snapshots[0], previous.GetOr(snapshots[0]))] + Outputs(Some(snapshots[0]), snapshots[1..])
  }

  /**
   * The k-th of successive calls compares snapshot k with the one before it,
   * or, for the first call, with the stored snapshot.
   */
  lemma {:induction false} OutputsAt(previous: Option<Counters>, snapshots: seq<Counters>, k: nat)
    requires k < |snapshots|
    ensures Outputs(previous, snapshots)[k]
            == Deltas(snapshots[k], if k == 0 then previous.GetOr(snapshots[0]) else snapshots[k - 1])
    decreases k
  {
    if k > 0 {
      OutputsAt(Some(snapshots[0]), snapshots[1..], k - 1);
    }
  }

  /** The first call compares its snapshot with the stored one; the rest start from it. */
  lemma OutputsCons(previous: Option<Counters>, c: Counters, rest: seq<Counters>)
    ensures Outputs(previous, [c] + rest) == [Deltas(c, previous.GetOr(c))] + Outputs(Some(c), rest)
  {
    assert ([c] + rest)[1..] == rest;
  }

  /** Sum of column `k` over rows of eight deltas. */
  function ColumnSum(rows: seq<seq<int>>, k: nat): int
    requires k < DeltaCount
    requires forall j :: 0 <= j < |rows| ==> |rows[j]| == DeltaCount
  {
    if |rows| == 0 then 0 else rows[0][k] + ColumnSum(rows[1..], k)
  }

  /**
   * Telescoping: over any run of calls the deltas of each counter add up to
   * the last snapshot minus the first reference point, which is the stored
   * snapshot, or the first snapshot itself when nothing was stored yet.
   */
  lemma {:induction false} Telescoping(previous: Option<Counters>, snapshots: seq<Counters>, k: nat)
    requires |snapshots| > 0
    requires k < DeltaCount
    ensures ColumnSum(Outputs(previous, snapshots), k)
         == Field(snapshots[|snapshots| - 1], k) - Field(previous.GetOr(snapshots[0]), k)
    decreases |snapshots|
  {
    var out := Outputs(previous, snapshots);
    assert out[1..] == Outputs(Some(snapshots[0]), snapshots[1..]);
    if |snapshots| > 1 {
      Telescoping(Some(snapshots[0]), snapshots[1..], k);
    }
  }
}
