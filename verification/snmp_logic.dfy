/**
 * The same two-sample arithmetic as written in `NetworkLogic._execute_snmp_query`,
 * the refactored copy that reports through a log callback.
 */
module SnmpLogic {
  import opened Wrappers
  import opened IfMib
  import MainApp

  /**
   * `delta_t`, `bps`, `speed`, `util`, `errs` and `err_rate` of the query. A
   * zero `delta_t` raises a division error that is caught and logged, which
   * is the Failure result.
   */
  function EfficiencyReport(s1: IfSample, s2: IfSample, t1: real, t2: real): (r: Result<Efficiency, QueryError>)
    ensures r.Failure? <==> t2 == t1
    ensures r.Success? ==> RateLaws(s1, s2, t1, t2, r.value)
  {
    var deltaT := t2 - t1;
    var bytes1 := s1.ifInOctets + s1.ifOutOctets;
    var bytes2 := s2.ifInOctets + s2.ifOutOctets;
    if deltaT == 0.0 then
      Failure(DivisionByZero)
    else
      var bps := ((bytes2 - bytes1) * 8) as real / deltaT;
      var speed := if s2.ifSpeed == 0 then 100_000_000 else s2.ifSpeed;
      var util := (bps / speed as real) * 100.0;
      var pkts1 := s1.ifInUcastPkts + s1.ifOutUcastPkts;
      var pkts2 := s2.ifInUcastPkts + s2.ifOutUcastPkts;
      var deltaPkts := pkts2 - pkts1;
      var errs := (s2.ifInErrors + s2.ifOutErrors) - (s1.ifInErrors + s1.ifOutErrors);
      var errRate := if deltaPkts > 0 then errs as real / deltaPkts as real * 100.0 else 0.0;
      Success(Efficiency(deltaT, bps, speed, util, errs, errRate))
  }

  /** On identical samples and timestamps the two copies of the arithmetic report the same figures. */
  lemma AgreesWithMainApp(s1: IfSample, s2: IfSample, t1: real, t2: real)
    ensures EfficiencyReport(s1, s2, t1, t2) == MainApp.EfficiencyReport(s1, s2, t1, t2)
  {
  }

  /** Sample s with k octets moved from the in counter to the out counter. */
  function ShiftOctets(s: IfSample, k: int): IfSample {
    s.(ifInOctets := s.ifInOctets - k, ifOutOctets := s.ifOutOctets + k)
  }

  /**
   * Only the sum of in and out octets matters: moving octets between the two
   * counters of either sample leaves bandwidth and utilization unchanged.
   */
  lemma OctetShiftInvariance(s1: IfSample, s2: IfSample, t1: real, t2: real, k1: int, k2: int)
    ensures EfficiencyReport(ShiftOctets(s1, k1), ShiftOctets(s2, k2), t1, t2) == EfficiencyReport(s1, s2, t1, t2)
  {
  }
}
