/**
 * The process aggregator of `cpu_measure` and `ram_measure`: keep the
 * processes named exactly "ros2" and add up their statistics.
 */
module Processes {

  /**
   * What the source reads from one process: its name, `cpu_percent()`, the
   * first two entries of `cpu_times()` (user and system seconds),
   * `memory_percent()` and the first entry of `memory_info()` (resident bytes).
   */
  datatype Process = Process(
    name: string,
    cpuPercent: real,
    userTime: real,
    systemTime: real,
    memoryPercent: real,
    rss: nat)

  /** The process name that is measured. */
  const TargetName: string := "ros2"

  predicate IsMeasured(p: Process) {
    p.name == TargetName
  }

  /** The processes named `TargetName`, in enumeration order. */
  function Matching(ps: seq<Process>): seq<Process>
    decreases |ps|
  {
    if |ps| == 0 then []
    else Matching(ps[..|ps| - 1]) + (if IsMeasured(ps[|ps| - 1]) then [ps[|ps| - 1]] else [])
  }

  /** `sum(proc.cpu_times()[:2])`. */
  function CpuTime(p: Process): real {
    p.userTime + p.systemTime
  }

  function CpuPercentOf(p: Process): real { p.cpuPercent }

  function MemoryPercentOf(p: Process): real { p.memoryPercent }

  /** Sum of `f` over `ps`, added up front to back as the source's loop does. */
  function Total(ps: seq<Process>, f: Process -> real): real
    decreases |ps|
  {
    if |ps| == 0 then 0.0 else Total(ps[..|ps| - 1], f) + f(ps[|ps| - 1])
  }

  /** Sum of the resident bytes over `ps`. */
  function TotalRss(ps: seq<Process>): int
    decreases |ps|
  {
    if |ps| == 0 then 0 else TotalRss(ps[..|ps| - 1]) + ps[|ps| - 1].rss
  }

  /** Reference definition: `f` over every process, counting non-targets as zero. */
  function MaskedTotal(ps: seq<Process>, f: Process -> real): real
    decreases |ps|
  {
    if |ps| == 0 then 0.0
    else (if IsMeasured(ps[0]) then f(ps[0]) else 0.0) + MaskedTotal(ps[1..], f)
  }

  /** Reference definition of the resident total, counting non-targets as zero. */
  function MaskedRss(ps: seq<Process>): int
    decreases |ps|
  {
    if |ps| == 0 then 0
    else (if IsMeasured(ps[0]) then ps[0].rss else 0) + MaskedRss(ps[1..])
  }

  /** A process is kept exactly when it occurs in the list and has the target name. */
  lemma {:induction false} MatchingMembers(ps: seq<Process>, p: Process)
    ensures p in Matching(ps) <==> p in ps && IsMeasured(p)
    decreases |ps|
  {
    if |ps| > 0 {
      var front := ps[..|ps| - 1];
      MatchingMembers(front, p);
      assert ps == front + [ps[|ps| - 1]];
    }
  }

  /** Filtering distributes over concatenation of process lists. */
  lemma {:induction false} MatchingAppend(a: seq<Process>, b: seq<Process>)
    ensures Matching(a + b) == Matching(a) + Matching(b)
    decreases |b|
  {
    if |b| == 0 {
      assert a + b == a;
    } else {
      var front := b[..|b| - 1];
      MatchingAppend(a, front);
      assert (a + b)[..|a + b| - 1] == a + front;
    }
  }

  lemma {:induction false} TotalAppend(a: seq<Process>, b: seq<Process>, f: Process -> real)
    ensures Total(a + b, f) == Total(a, f) + Total(b, f)
    decreases |b|
  {
    if |b| == 0 {
      assert a + b == a;
    } else {
      TotalAppend(a, b[..|b| - 1], f);
      assert (a + b)[..|a + b| - 1] == a + b[..|b| - 1];
    }
  }

  lemma {:induction false} TotalRssAppend(a: seq<Process>, b: seq<Process>)
    ensures TotalRss(a + b) == TotalRss(a) + TotalRss(b)
    decreases |b|
  {
    if |b| == 0 {
      assert a + b == a;
    } else {
      TotalRssAppend(a, b[..|b| - 1]);
      assert (a + b)[..|a + b| - 1] == a + b[..|b| - 1];
    }
  }

  /** Summing over the kept processes is summing over all, non-targets counting zero. */
  lemma {:induction false} TotalIsMasked(ps: seq<Process>, f: Process -> real)
    ensures Total(Matching(ps), f) == MaskedTotal(ps, f)
    decreases |ps|
  {
    if |ps| > 0 {
      var head := [ps[0]];
      assert ps == head + ps[1..];
      MatchingAppend(head, ps[1..]);
      TotalAppend(Matching(head), Matching(ps[1..]), f);
      assert head[..0] == [];
      TotalIsMasked(ps[1..], f);
    }
  }

  /** The same for the resident bytes. */
  lemma {:induction false} TotalRssIsMasked(ps: seq<Process>)
    ensures TotalRss(Matching(ps)) == MaskedRss(ps)
    decreases |ps|
  {
    if |ps| > 0 {
      var head := [ps[0]];
      assert ps == head + ps[1..];
      MatchingAppend(head, ps[1..]);
      TotalRssAppend(Matching(head), Matching(ps[1..]));
      assert head[..0] == [];
      TotalRssIsMasked(ps[1..]);
    }
  }

  /** With no process named "ros2", nothing is kept and all four sums are zero. */
  lemma {:induction false} NoTargetIsZero(ps: seq<Process>)
    requires forall k :: 0 <= k < |ps| ==> !IsMeasured(ps[k])
    ensures Matching(ps) == []
    ensures Total(Matching(ps), CpuPercentOf) == 0.0 && Total(Matching(ps), CpuTime) == 0.0
    ensures Total(Matching(ps), MemoryPercentOf) == 0.0 && TotalRss(Matching(ps)) == 0
    decreases |ps|
  {
    if |ps| > 0 {
      NoTargetIsZero(ps[..|ps| - 1]);
    }
  }

  /** The loop over `process_iter()` that appends each process named `ros2` to `processes`. */
  method FilterTargets(procs: seq<Process>) returns (processes: seq<Process>)
    ensures processes == Matching(procs)
  {
    processes := [];
    var i := 0;
    while i < |procs|
      invariant 0 <= i <= |procs|
      invariant processes == Matching(procs[..i])
    {
      assert procs[..i + 1][..i] == procs[..i];
      if procs[i].name == "ros2" {
        processes := processes + [procs[i]];
      }
      i := i + 1;
    }
    assert procs[..|procs|] == procs;
  }

  /**
   * `cpu_measure`: the summed CPU percent and the summed user + system CPU
   * time of the processes named "ros2" among `procs`.
   */
  method CpuMeasure(procs: seq<Process>) returns (cpuPercent: real, cpuTime: real)
    ensures cpuPercent == Total(Matching(procs), CpuPercentOf)
    ensures cpuTime == Total(Matching(procs), CpuTime)
  {
    var processes := FilterTargets(procs);
    cpuPercent := 0.0;
    cpuTime := 0.0;
    var i := 0;
    while i < |processes|
      invariant 0 <= i <= |processes|
      invariant cpuPercent == Total(processes[..i], CpuPercentOf)
      invariant cpuTime == Total(processes[..i], CpuTime)
    {
      assert processes[..i + 1][..i] == processes[..i];
      cpuPercent := cpuPercent + processes[i].cpuPercent;
      cpuTime := cpuTime + (processes[i].userTime + processes[i].systemTime);
      i := i + 1;
    }
    assert processes[..|processes|] == processes;
  }

  /**
   * `ram_measure`: the summed memory percent and the summed resident bytes of
   * the processes named "ros2" among `procs`.
   */
  method RamMeasure(procs: seq<Process>) returns (ramPercent: real, ramInfo: int)
    ensures ramPercent == Total(Matching(procs), MemoryPercentOf)
    ensures ramInfo == TotalRss(Matching(procs))
  {
    var processes := FilterTargets(procs);
    ramPercent := 0.0;
    ramInfo := 0;
    var i := 0;
    while i < |processes|
      invariant 0 <= i <= |processes|
      invariant ramPercent == Total(processes[..i], MemoryPercentOf)
      invariant ramInfo == TotalRss(processes[..i])
    {
      assert processes[..i + 1][..i] == processes[..i];
      ramPercent := ramPercent + processes[i].memoryPercent;
      ramInfo := ramInfo + processes[i].rss;
      i := i + 1;
    }
    assert processes[..|processes|] == processes;
  }
}
