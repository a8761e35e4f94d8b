/**
 * The rate arithmetic that `NetworkMonitorApp._execute_snmp_query` performs
 * on two polls of interface 1 taken `t2 - t1` seconds apart.
 */
module MainApp {
  import opened Wrappers
  import opened IfMib

  /**
   * Elapsed time, bandwidth, capacity with the zero-speed fallback,
   * utilization and error rate, in the order the query computes them. An
   * elapsed time of zero raises a division error that the query catches and
   * logs instead of any figures; that is the Failure result.
   */
  function EfficiencyReport(s1: IfSample, s2: IfSample, t1: real, t2: real): (r: Result<Efficiency, QueryError>)
    ensures r.Failure? <==> t2 == t1
    ensures r.Success? ==> RateLaws(s1, s2, t1, t2, r.value)
  {
    var deltaTime := t2 - t1;
    var bytes1 := Octets(s1);
    var bytes2 := Octets(s2);
    var deltaBytes := bytes2 - bytes1;
    if deltaTime == 0.0 then
      Failure(DivisionByZero)
    else
      var bps := (deltaBytes * 8) as real / deltaTime;
      var ifSpeedBps := if s2.ifSpeed == 0 then AssumedSpeedBps else s2.ifSpeed;
      var utilization := (bps / ifSpeedBps as real) * 100.0;
      var deltaPkts := UcastPkts(s2) - UcastPkts(s1);
      var deltaErrs := Errors(s2) - Errors(s1);
      var errorRate := if deltaPkts > 0 then (deltaErrs as real / deltaPkts as real) * 100.0 else 0.0;
      Success(Efficiency(deltaTime, bps, ifSpeedBps, utilization, deltaErrs, errorRate))
  }

  /**
   * No wraparound correction and no clamping: when the summed octet counters
   * of the second poll are below those of the first, time ran forward and the
   * link speed is non-negative, bandwidth and utilization come out negative.
   */
  lemma DecreasingOctetsGiveNegativeBandwidth(s1: IfSample, s2: IfSample, t1: real, t2: real)
    requires t1 < t2
    requires Octets(s2) < Octets(s1)
    requires s2.ifSpeed >= 0
    ensures EfficiencyReport(s1, s2, t1, t2).Success?
    ensures EfficiencyReport(s1, s2, t1, t2).value.bandwidthBps < 0.0
    ensures EfficiencyReport(s1, s2, t1, t2).value.utilizationPct < 0.0
  {
  }

  /**
   * A Counter32 that wrapped between polls: ifInOctets goes from 2^32 - 6 to
   * 10 over two seconds, 16 octets of real traffic. The report is a large
   * negative bandwidth instead of 64 bit/s.
   */
  lemma WrappedCounterExample()
    ensures
      var s1 := IfSample(0, 0x1_0000_0000 - 6, 0, 0, 0, 0, 0);
      var s2 := IfSample(0, 10, 0, 0, 0, 0, 0);
      var r := EfficiencyReport(s1, s2, 0.0, 2.0);
      r.Success? && r.value.bandwidthBps == -17179869120.0 && r.value.capacityBps == AssumedSpeedBps
  {
  }

  /**
   * The packet delta counts unicast packets only, and a non-positive packet
   * delta yields an error rate of exactly zero whatever the error counters did.
   */
  lemma ErrorRateZeroWithoutUnicastGrowth(s1: IfSample, s2: IfSample, t1: real, t2: real)
    requires t1 != t2
    requires s2.ifInUcastPkts + s2.ifOutUcastPkts <= s1.ifInUcastPkts + s1.ifOutUcastPkts
    ensures EfficiencyReport(s1, s2, t1, t2).Success?
    ensures EfficiencyReport(s1, s2, t1, t2).value.errorRatePct == 0.0
    ensures EfficiencyReport(s1, s2, t1, t2).value.deltaErrors == Errors(s2) - Errors(s1)
  {
  }
}
