/** The metrics record of the performance monitor: start and end times, the three sample
    lists that grow together (CPU percent, resident memory in MB, seconds since start),
    the runtime, the number of records processed and the throughput. The clock, the CPU
    percentage and the resident set size come in as parameters. */
module Monitor {
  import opened Wrappers
  import Stats

  /** The exceptions the monitor's methods can raise. */
  datatype Fault =
    | TypeError  // `current_time - self.start_time` with no start time
    | KeyError   // `self.metrics['throughput']` before the monitor was stopped

  /** The dictionary `get_summary` returns. A Python `0` (an `int`) and a computed float
      are kept apart as `Stats.Int` and `Stats.Float`. */
  datatype Summary = Summary(
    runtimeSeconds: Stats.Num,
    recordsProcessed: int,
    throughput: Stats.Num,
    avgCpuUsage: Stats.Num,
    maxCpuUsage: Stats.Num,
    avgMemoryMb: Stats.Num,
    maxMemoryMb: Stats.Num)

  /** `rss / 1024 / 1024`: bytes to megabytes. */
  function MemoryMb(rss: nat): (mb: real)
    ensures mb * 1048576.0 == rss as real
    ensures mb >= 0.0
  {
    rss as real / 1024.0 / 1024.0
  }

  /** `records / runtime if runtime > 0 else 0`. */
  function Throughput(records: int, runtime: real): (t: Stats.Num)
    ensures runtime > 0.0 ==> t.Float? && t.Value() * runtime == records as real
    ensures runtime <= 0.0 ==> t == Stats.Int(0)
  {
    if runtime > 0.0 then Stats.Float(records as real / runtime) else Stats.Int(0)
  }

  /** `sum(xs) / len(xs) if xs else 0`. */
  function Average(xs: seq<real>): Stats.Num
  {
    if xs == [] then Stats.Int(0) else Stats.Float(Stats.Mean(xs))
  }

  /** `max(xs) if xs else 0`. */
  function Largest(xs: seq<real>): Stats.Num
  {
    if xs == [] then Stats.Int(0) else Stats.Float(Stats.Max(xs))
  }

  /** An empty list averages and peaks at the integer 0; otherwise the average times the
      length is the sum, the peak is one of the samples and bounds all of them, and the
      average never exceeds the peak. */
  lemma AverageAndLargest(xs: seq<real>)
    ensures xs == [] ==> Average(xs) == Stats.Int(0) && Largest(xs) == Stats.Int(0)
    ensures xs != [] ==> Average(xs).Value() * |xs| as real == Stats.Sum(xs)
    ensures xs != [] ==> Largest(xs).Value() in xs
    ensures forall i :: 0 <= i < |xs| ==> xs[i] <= Largest(xs).Value()
    ensures Average(xs).Value() <= Largest(xs).Value()
  {
    if xs != [] {
      AverageTimesCount(xs);
      AverageAtMostLargest(xs);
    }
  }

  /** The average of a non-empty list times its length is its sum. */
  lemma AverageTimesCount(xs: seq<real>)
    requires xs != []
    ensures Average(xs).Value() * |xs| as real == Stats.Sum(xs)
  {
    var n := |xs| as real;
    assert Average(xs).Value() == Stats.Sum(xs) / n;
  }

  /** The average of a non-empty list never exceeds its peak. */
  lemma AverageAtMostLargest(xs: seq<real>)
    requires xs != []
    ensures Average(xs).Value() <= Largest(xs).Value()
  {
    Stats.MeanBounds(xs);
  }

  class PerformanceMonitor {
    var startTime: Option<real>
    var endTime: Option<real>
    var runtime: Stats.Num
    var cpuUsage: seq<real>
    var memoryUsage: seq<real>
    var timestamps: seq<real>
    var recordsProcessed: int
    /** The `'throughput'` key, absent until the monitor is stopped. */
    var throughput: Option<Stats.Num>

    /** The three sample lists have one entry per sample. */
    predicate InLockstep()
      reads this
    {
      |cpuUsage| == |memoryUsage| == |timestamps|
    }

    /** `__init__`: no times yet, runtime and records 0, no samples, no throughput. */
    constructor()
      ensures startTime == None && endTime == None
      ensures runtime == Stats.Int(0) && recordsProcessed == 0 && throughput == None
      ensures cpuUsage == [] && memoryUsage == [] && timestamps == []
      ensures InLockstep()
      ensures GetSummary() == Err(KeyError)
    {
      startTime := None;
      endTime := None;
      runtime := Stats.Int(0);
      cpuUsage := [];
      memoryUsage := [];
      timestamps := [];
      recordsProcessed := 0;
      throughput := None;
    }

    /** `_update_metrics`: one sample taken at clock reading `now`. The CPU and memory
        entries are appended first; the timestamp entry needs a start time, and without
        one the subtraction raises after the other two lists have grown. */
    method UpdateMetrics(now: real, cpu: real, rss: nat) returns (fault: Option<Fault>)
      modifies this
      ensures cpuUsage == old(cpuUsage) + [cpu]
      ensures memoryUsage == old(memoryUsage) + [MemoryMb(rss)]
      ensures old(startTime).Some? ==>
        fault == None && timestamps == old(timestamps) + [now - old(startTime).value]
      ensures old(startTime).None? ==> fault == Some(TypeError) && timestamps == old(timestamps)
      ensures startTime == old(startTime) && endTime == old(endTime)
      ensures runtime == old(runtime) && recordsProcessed == old(recordsProcessed)
      ensures throughput == old(throughput)
      ensures old(InLockstep()) && old(startTime).Some? ==> InLockstep()
    {
      cpuUsage := cpuUsage + [cpu];
      memoryUsage := memoryUsage + [MemoryMb(rss)];
      if startTime.None? {
        return Some(TypeError);
      }
      timestamps := timestamps + [now - startTime.value];
      fault := None;
    }

    /** `start_monitoring`: the start time is read from the clock (`clock`), then the
        first sample is taken at a second clock reading (`sampleClock`). */
    method StartMonitoring(clock: real, sampleClock: real, cpu: real, rss: nat)
      modifies this
      ensures startTime == Some(clock)
      ensures cpuUsage == old(cpuUsage) + [cpu]
      ensures memoryUsage == old(memoryUsage) + [MemoryMb(rss)]
      ensures timestamps == old(timestamps) + [sampleClock - clock]
      ensures endTime == old(endTime) && runtime == old(runtime)
      ensures recordsProcessed == old(recordsProcessed) && throughput == old(throughput)
      ensures old(InLockstep()) ==> InLockstep()
    {
      startTime := Some(clock);
      var fault := UpdateMetrics(sampleClock, cpu, rss);
    }

    /** `stop_monitoring`: the end time is read from the clock (`endClock`), a last sample
        is taken (`sampleClock`), then runtime, records and the zero-guarded throughput are
        stored and the summary is returned. Without a prior start the sample raises, after
        the end time and the CPU and memory entries have been written. The source's
        `records_processed` defaults to 0, so a call without that argument is `records == 0`. */
    method StopMonitoring(endClock: real, sampleClock: real, cpu: real, rss: nat, records: int)
      returns (r: Result<Summary, Fault>)
      modifies this
      ensures endTime == Some(endClock) && startTime == old(startTime)
      ensures cpuUsage == old(cpuUsage) + [cpu]
      ensures memoryUsage == old(memoryUsage) + [MemoryMb(rss)]
      ensures old(startTime).None? ==>
        && r == Err(TypeError)
        && timestamps == old(timestamps)
        && runtime == old(runtime)
        && recordsProcessed == old(recordsProcessed)
        && throughput == old(throughput)
      ensures old(startTime).Some? ==>
        var start := old(startTime).value;
        && timestamps == old(timestamps) + [sampleClock - start]
        && runtime == Stats.Float(endClock - start)
        && recordsProcessed == records
        && throughput == Some(Throughput(records, endClock - start))
        && r == GetSummary()
        && r.Ok?
      ensures old(InLockstep()) && old(startTime).Some? ==> InLockstep()
    {
      endTime := Some(endClock);
      var fault := UpdateMetrics(sampleClock, cpu, rss);
      if fault.Some? {
        return Err(fault.value);
      }
      runtime := Stats.Float(endClock - startTime.value);
      recordsProcessed := records;
      throughput := Some(Throughput(records, endClock - startTime.value));
      r := GetSummary();
    }

    /** `get_summary`: the runtime, the records, the throughput and the average and peak
        of the CPU and memory samples; `KeyError` before the monitor has been stopped. */
    function GetSummary(): (r: Result<Summary, Fault>)
      reads this
      ensures r.Err? <==> throughput.None?
      ensures r.Err? ==> r.error == KeyError
      ensures r.Ok? ==>
        && r.value.runtimeSeconds == runtime
        && r.value.recordsProcessed == recordsProcessed
        && Some(r.value.throughput) == throughput
    {
      match throughput
      case None => Err(KeyError)
      case Some(t) =>
        Ok(Summary(runtime, recordsProcessed, t,
          Average(cpuUsage), Largest(cpuUsage), Average(memoryUsage), Largest(memoryUsage)))
    }
  }

  /** A summary taken after a stop: its averages times the sample counts are the sample
      sums, its peaks bound every sample, and no average exceeds its peak. */
  lemma SummaryAverages(m: PerformanceMonitor)
    requires m.GetSummary().Ok?
    ensures var s := m.GetSummary().value;
      && (m.cpuUsage != [] ==> s.avgCpuUsage.Value() * |m.cpuUsage| as real == Stats.Sum(m.cpuUsage))
      && (m.memoryUsage != [] ==> s.avgMemoryMb.Value() * |m.memoryUsage| as real == Stats.Sum(m.memoryUsage))
      && (forall i :: 0 <= i < |m.cpuUsage| ==> m.cpuUsage[i] <= s.maxCpuUsage.Value())
      && (forall i :: 0 <= i < |m.memoryUsage| ==> m.memoryUsage[i] <= s.maxMemoryMb.Value())
      && s.avgCpuUsage.Value() <= s.maxCpuUsage.Value()
      && s.avgMemoryMb.Value() <= s.maxMemoryMb.Value()
  {
    var cpu, mem := m.cpuUsage, m.memoryUsage;
    var s := m.GetSummary().value;
    assert s.avgCpuUsage == Average(cpu) && s.maxCpuUsage == Largest(cpu);
    assert s.avgMemoryMb == Average(mem) && s.maxMemoryMb == Largest(mem);
    AverageAndLargest(cpu);
    AverageAndLargest(mem);
  }

  /** A whole monitored run: create, start at `t0` with a sample at `t1`, stop at `t2`
      with a sample at `t3`. Each list then holds two entries and the summary reports the
      runtime `t2 - t0`, the records, their throughput and the two samples' average and
      peak. */
  method MonitoredRun(t0: real, t1: real, t2: real, t3: real,
                      cpu0: real, rss0: nat, cpu1: real, rss1: nat, records: int)
    returns (r: Result<Summary, Fault>, cpuUsage: seq<real>, memoryUsage: seq<real>,
             timestamps: seq<real>)
    ensures cpuUsage == [cpu0, cpu1]
    ensures memoryUsage == [MemoryMb(rss0), MemoryMb(rss1)]
    ensures timestamps == [t1 - t0, t3 - t0]
    ensures r.Ok?
    ensures r.value.runtimeSeconds == Stats.Float(t2 - t0)
    ensures r.value.recordsProcessed == records
    ensures r.value.throughput == Throughput(records, t2 - t0)
    ensures r.value.avgCpuUsage == Stats.Float((cpu0 + cpu1) / 2.0)
    ensures r.value.maxCpuUsage == Stats.Float(if cpu0 >= cpu1 then cpu0 else cpu1)
    ensures r.value.avgMemoryMb == Stats.Float((MemoryMb(rss0) + MemoryMb(rss1)) / 2.0)
    ensures r.value.maxMemoryMb ==
      Stats.Float(if MemoryMb(rss0) >= MemoryMb(rss1) then MemoryMb(rss0) else MemoryMb(rss1))
  {
    var m := new PerformanceMonitor();
    m.StartMonitoring(t0, t1, cpu0, rss0);
    r := m.StopMonitoring(t2, t3, cpu1, rss1, records);
    cpuUsage, memoryUsage, timestamps := m.cpuUsage, m.memoryUsage, m.timestamps;
    TwoSamples(cpu0, cpu1);
    TwoSamples(MemoryMb(rss0), MemoryMb(rss1));
  }

  /** The average and the peak of two samples. */
  lemma TwoSamples(a: real, b: real)
    ensures Average([a, b]) == Stats.Float((a + b) / 2.0)
    ensures Largest([a, b]) == Stats.Float(if a >= b then a else b)
  {
    var s := [a, b];
    assert s[1..] == [b];
    assert [b][1..] == [];
    assert Stats.SumOf([b], Stats.Identity) == b;
    assert Stats.SumOf(s, Stats.Identity) == a + b;
    assert Stats.Max([b]) == b;
  }
}
