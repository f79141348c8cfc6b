/** The CPU-percentage calculation of `docker stats` (calculateCPUPercent). */
module CpuPercent {

  import opened UInt64

  /** The parts of one decoded statistics record that the command reads. */
  datatype Sample = Sample(
    totalUsage: uint64,         // CpuStats.CpuUsage.TotalUsage, cumulative
    percpuUsage: seq<uint64>,   // CpuStats.CpuUsage.PercpuUsage, one entry per CPU
    systemUsage: uint64,        // CpuStats.SystemUsage, cumulative
    memoryUsage: uint64,        // MemoryStats.Usage
    memoryLimit: uint64,        // MemoryStats.Limit
    rxBytes: uint64,            // Network.RxBytes
    txBytes: uint64             // Network.TxBytes
  )

  function CpuCount(v: Sample): real
  {
    |v.percpuUsage| as real
  }

  /** Percentage of the machine's CPUs the container used between the previous
      counters and the sample `v`. Both deltas are uint64 differences. The
      result is zero exactly when one of the counters did not move or the
      sample lists no CPU. */
  function CalculateCPUPercent(previousCPU: uint64, previousSystem: uint64, v: Sample): (r: real)
    ensures r >= 0.0
    ensures r == 0.0 <==>
      v.totalUsage == previousCPU || v.systemUsage == previousSystem || |v.percpuUsage| == 0
  {
    var cpuDelta := Sub(v.totalUsage, previousCPU) as real;
    var systemDelta := Sub(v.systemUsage, previousSystem) as real;
    if systemDelta > 0.0 && cpuDelta > 0.0 then
      PositiveProduct(cpuDelta, systemDelta, CpuCount(v));
      (cpuDelta / systemDelta) * CpuCount(v) * 100.0
    else
      0.0
  }

  lemma PositiveProduct(c: real, s: real, n: real)
    requires c > 0.0 && s > 0.0 && n >= 0.0
    ensures (c / s) * n * 100.0 >= 0.0
    ensures (c / s) * n * 100.0 == 0.0 <==> n == 0.0
  {
    QuotientAbove(c, s, 0.0);
  }

  /** `c / s` exceeds `k` when `c` exceeds `k * s`. */
  lemma QuotientAbove(c: real, s: real, k: real)
    requires s > 0.0 && c > k * s
    ensures c / s > k
  {
  }

  /** When both counters advanced without wrapping, the result is the ratio of
      the plain differences, scaled by the number of CPUs and by 100. */
  lemma CpuPercentOfAdvancingCounters(previousCPU: uint64, previousSystem: uint64, v: Sample)
    requires previousCPU < v.totalUsage && previousSystem < v.systemUsage
    ensures CalculateCPUPercent(previousCPU, previousSystem, v)
         == ((v.totalUsage - previousCPU) as real / (v.systemUsage - previousSystem) as real)
            * CpuCount(v) * 100.0
  {
  }

  /** With both counters non-decreasing and the container's CPU time growing no
      faster than the system's, the percentage lies between 0 and 100 per CPU. */
  lemma CpuPercentBounded(previousCPU: uint64, previousSystem: uint64, v: Sample)
    requires previousCPU <= v.totalUsage && previousSystem <= v.systemUsage
    requires v.totalUsage - previousCPU <= v.systemUsage - previousSystem
    ensures 0.0 <= CalculateCPUPercent(previousCPU, previousSystem, v) <= CpuCount(v) * 100.0
  {
    if previousCPU < v.totalUsage && previousSystem < v.systemUsage {
      var c := (v.totalUsage - previousCPU) as real;
      var s := (v.systemUsage - previousSystem) as real;
      assert c / s <= 1.0;
      assert (c / s) * CpuCount(v) <= CpuCount(v);
    }
  }

  /** The zero guard does not catch a container counter that went backwards:
      the uint64 delta wraps to TwoTo64 minus the drop, and when that exceeds
      the system delta the result is above 100 per CPU. */
  lemma BackwardsCounterSpikes(previousCPU: uint64, previousSystem: uint64, v: Sample)
    requires v.totalUsage < previousCPU && previousSystem < v.systemUsage
    requires v.systemUsage - previousSystem < v.totalUsage - previousCPU + TwoTo64
    requires |v.percpuUsage| > 0
    ensures CalculateCPUPercent(previousCPU, previousSystem, v)
         == ((v.totalUsage - previousCPU + TwoTo64) as real / (v.systemUsage - previousSystem) as real)
            * CpuCount(v) * 100.0
    ensures CalculateCPUPercent(previousCPU, previousSystem, v) > CpuCount(v) * 100.0
  {
    var c := (v.totalUsage - previousCPU + TwoTo64) as real;
    var s := (v.systemUsage - previousSystem) as real;
    QuotientAbove(c, s, 1.0);
    assert (c / s) * CpuCount(v) > CpuCount(v);
  }
}
