/**
 * The interface counters one SNMP poll reads, and the efficiency figures that
 * the two-sample query derives from a pair of polls.
 */
module IfMib {

  /**
   * One reading of the ifTable columns (RFC 1213, section 6) for interface 1.
   * Values are unbounded integers: the program converts each varbind with
   * `int(...)` and never reduces modulo 2^32, so Counter32 wraparound
   * (RFC 2578, section 7.1.6) is invisible to it.
   */
  datatype IfSample = IfSample(
    ifSpeed: int,
    ifInOctets: int,
    ifOutOctets: int,
    ifInUcastPkts: int,
    ifOutUcastPkts: int,
    ifInErrors: int,
    ifOutErrors: int)

  /** Capacity assumed when an agent reports ifSpeed = 0 (a virtual interface): 100 Mbit/s. */
  const AssumedSpeedBps: int := 100_000_000

  /** In plus out octets of one sample. */
  function Octets(s: IfSample): int {
    s.ifInOctets + s.ifOutOctets
  }

  /** In plus out unicast packets of one sample; broadcast and multicast are not read. */
  function UcastPkts(s: IfSample): int {
    s.ifInUcastPkts + s.ifOutUcastPkts
  }

  /** In plus out errors of one sample. */
  function Errors(s: IfSample): int {
    s.ifInErrors + s.ifOutErrors
  }

  /** The figures the query logs once both samples are in. */
  datatype Efficiency = Efficiency(
    elapsedSeconds: real,
    bandwidthBps: real,
    capacityBps: int,
    utilizationPct: real,
    deltaErrors: int,
    errorRatePct: real)

  /** The one way the arithmetic itself fails: dividing by an elapsed time of zero. */
  datatype QueryError = DivisionByZero

  /**
   * What a report over sample s1 taken at t1 and sample s2 taken at t2 must
   * satisfy, written per counter and without division, as an independent
   * reference for the summed-counter arithmetic of the query.
   */
  ghost predicate RateLaws(s1: IfSample, s2: IfSample, t1: real, t2: real, e: Efficiency) {
    var deltaPkts := (s2.ifInUcastPkts - s1.ifInUcastPkts) + (s2.ifOutUcastPkts - s1.ifOutUcastPkts);
    && e.elapsedSeconds == t2 - t1
    && e.bandwidthBps * e.elapsedSeconds
       == 8.0 * ((s2.ifInOctets - s1.ifInOctets) + (s2.ifOutOctets - s1.ifOutOctets)) as real
    && (s2.ifSpeed == 0 ==> e.capacityBps == AssumedSpeedBps)
    && (s2.ifSpeed != 0 ==> e.capacityBps == s2.ifSpeed)
    && e.utilizationPct * e.capacityBps as real == e.bandwidthBps * 100.0
    && e.deltaErrors == (s2.ifInErrors - s1.ifInErrors) + (s2.ifOutErrors - s1.ifOutErrors)
    && (deltaPkts <= 0 ==> e.errorRatePct == 0.0)
    && (deltaPkts > 0 ==> e.errorRatePct * deltaPkts as real == e.deltaErrors as real * 100.0)
  }

  /** The laws leave no freedom: once time has passed, at most one report satisfies them. */
  lemma RateLawsDetermineReport(s1: IfSample, s2: IfSample, t1: real, t2: real, e1: Efficiency, e2: Efficiency)
    requires t1 != t2
    requires RateLaws(s1, s2, t1, t2, e1) && RateLaws(s1, s2, t1, t2, e2)
    ensures e1 == e2
  {
    var d := t2 - t1;
    assert e1.bandwidthBps * d == e2.bandwidthBps * d;
    CancelFactor(e1.bandwidthBps, e2.bandwidthBps, d);
    assert e1.capacityBps == e2.capacityBps != 0;
    CancelFactor(e1.utilizationPct, e2.utilizationPct, e1.capacityBps as real);
    var deltaPkts := (s2.ifInUcastPkts - s1.ifInUcastPkts) + (s2.ifOutUcastPkts - s1.ifOutUcastPkts);
    if deltaPkts > 0 {
      CancelFactor(e1.errorRatePct, e2.errorRatePct, deltaPkts as real);
    }
  }

  /** A non-zero factor cancels from both sides of an equation. */
  lemma CancelFactor(a: real, b: real, d: real)
    requires d != 0.0
    requires a * d == b * d
    ensures a == b
  {
    assert (a - b) * d == 0.0;
  }
}
