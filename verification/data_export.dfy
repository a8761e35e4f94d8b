/**
 * The summary block of the SNMP JSON export: totals, mean utilization and
 * status counts folded over the per-agent records.
 */
module DataExport {
  import opened Wrappers

  /**
   * The fields of one agent record that the summary reads; None is a key
   * missing from the record's dictionary.
   */
  datatype AgentRecord = AgentRecord(
    inOctets: Option<int>,
    outOctets: Option<int>,
    inPackets: Option<int>,
    outPackets: Option<int>,
    inErrors: Option<int>,
    outErrors: Option<int>,
    utilizationPct: Option<real>,
    status: Option<string>)

  /** Status text of a healthy agent. */
  const StatusOptimal: string := "\U{D3}PTIMO"
  /** Status text of an agent in alarm. */
  const StatusAlert: string := "ALERTA"

  /** `d.get(field, 0)` for a counter field. */
  function CountOrZero(v: Option<int>): int {
    match v
    case Some(n) => n
    case None => 0
  }

  /** `d.get('Utilization_%', 0)`. */
  function UtilizationOrZero(r: AgentRecord): real {
    match r.utilizationPct
    case Some(u) => u
    case None => 0.0
  }

  /** Σ (IN_Octets + OUT_Octets). */
  function TotalOctets(records: seq<AgentRecord>): int {
    if |records| == 0 then 0
    else
      var last := records[|records| - 1];
      TotalOctets(records[..|records| - 1]) + CountOrZero(last.inOctets) + CountOrZero(last.outOctets)
  }

  /** Σ (IN_Packets + OUT_Packets). */
  function TotalPackets(records: seq<AgentRecord>): int {
    if |records| == 0 then 0
    else
      var last := records[|records| - 1];
      TotalPackets(records[..|records| - 1]) + CountOrZero(last.inPackets) + CountOrZero(last.outPackets)
  }

  /** Σ (IN_Errors + OUT_Errors). */
  function TotalErrors(records: seq<AgentRecord>): int {
    if |records| == 0 then 0
    else
      var last := records[|records| - 1];
      TotalErrors(records[..|records| - 1]) + CountOrZero(last.inErrors) + CountOrZero(last.outErrors)
  }

  /** Σ Utilization_%. */
  function TotalUtilization(records: seq<AgentRecord>): real {
    if |records| == 0 then 0.0
    else TotalUtilization(records[..|records| - 1]) + UtilizationOrZero(records[|records| - 1])
  }

  /** The number of records whose Status is exactly `status`; a missing Status matches nothing. */
  function CountStatus(records: seq<AgentRecord>, status: string): (n: nat)
    ensures n <= |records|
    ensures n == 0 <==> forall i :: 0 <= i < |records| ==> records[i].status != Some(status)
    ensures n == |records| <==> forall i :: 0 <= i < |records| ==> records[i].status == Some(status)
  {
    if |records| == 0 then 0
    else
      var matches := if records[|records| - 1].status == Some(status) then 1 else 0;
      CountStatus(records[..|records| - 1], status) + matches
  }

  /** The summary dictionary, before `average_utilization` is rounded to two decimals. */
  datatype SnmpSummary = SnmpSummary(
    totalDataGb: real,
    totalPackets: int,
    totalErrors: int,
    averageUtilization: real,
    agentsOptimal: nat,
    agentsAlert: nat)

  /** `_calculate_snmp_summary`. */
  function SnmpSummaryOf(records: seq<AgentRecord>): (s: SnmpSummary)
    ensures s.totalDataGb * 1_000_000_000.0 == TotalOctets(records) as real
    ensures |records| == 0 ==> s == SnmpSummary(0.0, 0, 0, 0.0, 0, 0)
    ensures |records| > 0 ==> s.averageUtilization * |records| as real == TotalUtilization(records)
    ensures s.totalPackets == TotalPackets(records)
    ensures s.totalErrors == TotalErrors(records)
    ensures s.agentsOptimal == CountStatus(records, StatusOptimal)
    ensures s.agentsAlert == CountStatus(records, StatusAlert)
    ensures s.agentsOptimal + s.agentsAlert <= |records|
  {
    var avgUtilization := if |records| > 0 then TotalUtilization(records) / |records| as real else 0.0;
    StatusCountsBounded(records);
    SnmpSummary(
      TotalOctets(records) as real / 1_000_000_000.0,
      TotalPackets(records),
      TotalErrors(records),
      avgUtilization,
      CountStatus(records, StatusOptimal),
      CountStatus(records, StatusAlert))
  }

  /** No record is counted both as optimal and as in alarm. */
  lemma {:induction false} StatusCountsBounded(records: seq<AgentRecord>)
    ensures CountStatus(records, StatusOptimal) + CountStatus(records, StatusAlert) <= |records|
    decreases |records|
  {
    if |records| > 0 {
      StatusCountsBounded(records[..|records| - 1]);
      assert StatusOptimal[0] != StatusAlert[0];
    }
  }

  /** Totals and status counts of a concatenation are the sums of those of the parts. */
  lemma {:induction false} SummaryAdditive(a: seq<AgentRecord>, b: seq<AgentRecord>)
    ensures TotalOctets(a + b) == TotalOctets(a) + TotalOctets(b)
    ensures TotalPackets(a + b) == TotalPackets(a) + TotalPackets(b)
    ensures TotalErrors(a + b) == TotalErrors(a) + TotalErrors(b)
    ensures TotalUtilization(a + b) == TotalUtilization(a) + TotalUtilization(b)
    ensures forall status :: CountStatus(a + b, status) == CountStatus(a, status) + CountStatus(b, status)
    decreases |b|
  {
    if |b| == 0 {
      assert a + b == a;
    } else {
      var b' := b[..|b| - 1];
      SummaryAdditive(a, b');
      assert (a + b)[..|a + b| - 1] == a + b';
      assert (a + b)[|a + b| - 1] == b[|b| - 1];
    }
  }

  /** Every total and status count of the empty list is zero. */
  lemma EmptyRecordsFold(status: string)
    ensures TotalOctets([]) == 0
    ensures TotalPackets([]) == 0
    ensures TotalErrors([]) == 0
    ensures TotalUtilization([]) == 0.0
    ensures CountStatus([], status) == 0
  {
  }

  /**
   * What a single record contributes to each fold: its IN + OUT counters,
   * its utilization, and 1 to the count of its own status. With
   * `EmptyRecordsFold` and `SummaryAdditive` this determines every fold.
   */
  lemma SingleRecordFold(r: AgentRecord, status: string)
    ensures TotalOctets([r]) == CountOrZero(r.inOctets) + CountOrZero(r.outOctets)
    ensures TotalPackets([r]) == CountOrZero(r.inPackets) + CountOrZero(r.outPackets)
    ensures TotalErrors([r]) == CountOrZero(r.inErrors) + CountOrZero(r.outErrors)
    ensures TotalUtilization([r]) == UtilizationOrZero(r)
    ensures CountStatus([r], status) == (if r.status == Some(status) then 1 else 0)
  {
    assert [r][..0] == [];
  }

  /** A record with every field missing adds nothing to any total or status count. */
  lemma MissingFieldsCountAsZero(records: seq<AgentRecord>)
    ensures
      var r := records + [AgentRecord(None, None, None, None, None, None, None, None)];
      && TotalOctets(r) == TotalOctets(records)
      && TotalPackets(r) == TotalPackets(records)
      && TotalErrors(r) == TotalErrors(records)
      && TotalUtilization(r) == TotalUtilization(records)
      && CountStatus(r, StatusOptimal) == CountStatus(records, StatusOptimal)
      && CountStatus(r, StatusAlert) == CountStatus(records, StatusAlert)
  {
  }
}
