/**
 * Validation of the alarm-threshold dialog: every entry is parsed and
 * checked in order, and the new thresholds reach the callback only if all of
 * them pass.
 */
module ThresholdConfig {
  import opened Wrappers

  /** The four thresholds the dialog edits. */
  datatype ThresholdKey = Utilization | ErrorRate | Broadcast | Collisions

  /** The keys in the order the dialog creates its entries, which is the order they are checked in. */
  const DialogKeys: seq<ThresholdKey> := [Utilization, ErrorRate, Broadcast, Collisions]

  /**
   * The maximum the dialog advertises for each key. Only the utilization
   * maximum is enforced; error rate is checked against 100, and broadcast and
   * collisions have no upper check at all.
   */
  function AdvertisedMax(key: ThresholdKey): real {
    match key
    case Utilization => 100.0
    case ErrorRate => 10.0
    case Broadcast => 50000.0
    case Collisions => 1000.0
  }

  /**
   * One entry field: its key and what `float()` makes of its text, None
   * when the text does not parse and `float()` raises.
   */
  datatype Entry = Entry(key: ThresholdKey, parsed: Option<real>)

  /** The error that stops a save, one per `raise` in the validation loop. */
  datatype ValidationError =
    | NotANumber(key: ThresholdKey)
    | NegativeValue(key: ThresholdKey)
    | UtilizationOutOfRange
    | ErrorRateOutOfRange

  /** The bounds the save actually enforces for one key. */
  predicate Acceptable(key: ThresholdKey, v: real) {
    && 0.0 <= v
    && (key == Utilization ==> v <= 100.0)
    && (key == ErrorRate ==> v <= 100.0)
  }

  /**
   * Checks one entry: parse, then the negative check shared by every key,
   * then the range check of its own key.
   */
  function CheckEntry(e: Entry): (r: Result<real, ValidationError>)
    ensures r.Success? <==> e.parsed.Some? && Acceptable(e.key, e.parsed.value)
    ensures r.Success? ==> r.value == e.parsed.value
    ensures e.parsed.None? ==> r == Failure(NotANumber(e.key))
    ensures e.parsed.Some? && e.parsed.value < 0.0 ==> r == Failure(NegativeValue(e.key))
  {
    match e.parsed
    case None => Failure(NotANumber(e.key))
    case Some(value) =>
      if value < 0.0 then Failure(NegativeValue(e.key))
      else if e.key == Utilization && (value < 0.0 || value > 100.0) then Failure(UtilizationOutOfRange)
      else if e.key == ErrorRate && value > 100.0 then Failure(ErrorRateOutOfRange)
      else Success(value)
  }

  /** Every entry has a key of its own, as the dialog's dictionary of entries guarantees. */
  predicate DistinctKeys(entries: seq<Entry>) {
    forall i, j :: 0 <= i < j < |entries| ==> entries[i].key != entries[j].key
  }

  /** The keys of a sequence of entries. */
  function KeysOf(entries: seq<Entry>): set<ThresholdKey> {
    set i | 0 <= i < |entries| :: entries[i].key
  }

  /** Entry i fails with e and every entry before it passes. */
  predicate FirstFailureAt(entries: seq<Entry>, i: int, e: ValidationError) {
    && 0 <= i < |entries|
    && CheckEntry(entries[i]) == Failure(e)
    && forall j :: 0 <= j < i ==> CheckEntry(entries[j]).Success?
  }

  /**
   * The validation loop: entries are checked front to back and the first
   * failure is the error; when all pass the result maps each key to its
   * parsed value.
   */
  function Validate(entries: seq<Entry>): (r: Result<map<ThresholdKey, real>, ValidationError>)
    ensures r.Success? <==> forall i :: 0 <= i < |entries| ==> entries[i].parsed.Some? && Acceptable(entries[i].key, entries[i].parsed.value)
    ensures r.Success? ==> r.value.Keys == KeysOf(entries)
    ensures r.Success? && DistinctKeys(entries) ==>
      forall i :: 0 <= i < |entries| ==> r.value[entries[i].key] == entries[i].parsed.value
    ensures r.Failure? ==> exists i :: FirstFailureAt(entries, i, r.error)
  {
    if |entries| == 0 then
      Success(map[])
    else
      match CheckEntry(entries[0])
      case Failure(e) =>
        assert FirstFailureAt(entries, 0, e);
        Failure(e)
      case Success(v) =>
        match Validate(entries[1..])
        case Failure(e) =>
          LaterFailure(entries, e);
          Failure(e)
        case Success(rest) =>
          KeysOfCons(entries);
          Success(map[entries[0].key := v] + rest)
  }

  /** The keys of a non-empty sequence are its first key and the keys of the rest. */
  lemma KeysOfCons(entries: seq<Entry>)
    requires |entries| > 0
    ensures KeysOf(entries) == {entries[0].key} + KeysOf(entries[1..])
    ensures DistinctKeys(entries) ==> entries[0].key !in KeysOf(entries[1..]) && DistinctKeys(entries[1..])
  {
  }

  /** A failure met after a passing first entry is the failure of some later entry whose predecessors all pass. */
  lemma LaterFailure(entries: seq<Entry>, e: ValidationError)
    requires |entries| > 0 && CheckEntry(entries[0]).Success?
    requires exists i :: FirstFailureAt(entries[1..], i, e)
    ensures exists i :: FirstFailureAt(entries, i, e)
  {
    var i :| FirstFailureAt(entries[1..], i, e);
    assert CheckEntry(entries[i + 1]) == Failure(e);
    forall j | 0 <= j < i + 1 ensures CheckEntry(entries[j]).Success? {
      if j > 0 { assert entries[j] == entries[1..][j - 1]; }
    }
    assert FirstFailureAt(entries, i + 1, e);
  }

  /** What pressing Save leads to. */
  datatype SaveOutcome =
    /** The error dialog shows; nothing is applied. */
    | Rejected(error: ValidationError)
    /** The success dialog shows; `delivered` is what the callback received, if one is set. */
    | Saved(delivered: Option<map<ThresholdKey, real>>)

  /**
   * `_save_changes`: all or nothing. The callback, when there is one, runs
   * only after every entry passed, and it receives exactly the entry keys
   * with their parsed values.
   */
  function SaveChanges(entries: seq<Entry>, hasCallback: bool): (r: SaveOutcome)
    requires DistinctKeys(entries)
    ensures r.Saved? <==> forall i :: 0 <= i < |entries| ==> CheckEntry(entries[i]).Success?
    ensures r.Saved? ==> (r.delivered.Some? <==> hasCallback)
    ensures r.Rejected? ==> exists i :: FirstFailureAt(entries, i, r.error)
    ensures r.Saved? && r.delivered.Some? ==>
      && r.delivered.value.Keys == KeysOf(entries)
      && forall i :: 0 <= i < |entries| ==> r.delivered.value[entries[i].key] == entries[i].parsed.value
  {
    match Validate(entries)
    case Failure(e) => Rejected(e)
    case Success(thresholds) => Saved(if hasCallback then Some(thresholds) else None)
  }

  /** The dialog's four entries, in creation order, holding the given parse results. */
  function DialogEntries(u: Option<real>, er: Option<real>, b: Option<real>, c: Option<real>): (entries: seq<Entry>)
    ensures |entries| == 4 && DistinctKeys(entries)
    ensures forall i :: 0 <= i < 4 ==> entries[i].key == DialogKeys[i]
    ensures entries[0].parsed == u && entries[1].parsed == er && entries[2].parsed == b && entries[3].parsed == c
  {
    [Entry(Utilization, u), Entry(ErrorRate, er), Entry(Broadcast, b), Entry(Collisions, c)]
  }

  /** The values "Restore defaults" writes into the entries, each read back by `float()`. */
  function DefaultEntries(): seq<Entry> {
    DialogEntries(Some(80.0), Some(1.0), Some(10000.0), Some(100.0))
  }

  /**
   * When all four dialog entries parse and pass, validation yields exactly
   * the four keys, each with the value parsed from its entry.
   */
  lemma DialogAccepted(u: real, er: real, b: real, c: real)
    requires Acceptable(Utilization, u) && Acceptable(ErrorRate, er)
    requires Acceptable(Broadcast, b) && Acceptable(Collisions, c)
    ensures Validate(DialogEntries(Some(u), Some(er), Some(b), Some(c)))
      == Success(map[Utilization := u, ErrorRate := er, Broadcast := b, Collisions := c])
  {
    var entries := DialogEntries(Some(u), Some(er), Some(b), Some(c));
    assert forall i :: 0 <= i < 4 ==> entries[i].parsed.Some? && Acceptable(entries[i].key, entries[i].parsed.value);
    var thresholds := Validate(entries).value;
    DialogKeysCovered(Some(u), Some(er), Some(b), Some(c));
    assert thresholds[entries[0].key] == u && thresholds[entries[1].key] == er;
    assert thresholds[entries[2].key] == b && thresholds[entries[3].key] == c;
    assert thresholds == map[Utilization := u, ErrorRate := er, Broadcast := b, Collisions := c];
  }

  /** The defaults pass validation and are saved unchanged. */
  lemma DefaultsAccepted()
    ensures Validate(DefaultEntries())
      == Success(map[Utilization := 80.0, ErrorRate := 1.0, Broadcast := 10000.0, Collisions := 100.0])
  {
    DialogAccepted(80.0, 1.0, 10000.0, 100.0);
  }

  /** The dialog's entries cover every key. */
  lemma DialogKeysCovered(u: Option<real>, er: Option<real>, b: Option<real>, c: Option<real>)
    ensures KeysOf(DialogEntries(u, er, b, c)) == {Utilization, ErrorRate, Broadcast, Collisions}
  {
    var entries := DialogEntries(u, er, b, c);
    assert entries[0].key == Utilization && entries[1].key == ErrorRate;
    assert entries[2].key == Broadcast && entries[3].key == Collisions;
  }

  /**
   * Utilization is accepted exactly on [0, 100]; error rate on [0, 100]
   * although the dialog advertises 10; broadcast and collisions accept every
   * non-negative value, above their advertised maxima too.
   */
  lemma EnforcedBounds(v: real)
    ensures CheckEntry(Entry(Utilization, Some(v))).Success? <==> 0.0 <= v <= 100.0
    ensures CheckEntry(Entry(ErrorRate, Some(v))).Success? <==> 0.0 <= v <= 100.0
    ensures v > 100.0 ==> CheckEntry(Entry(Utilization, Some(v))) == Failure(UtilizationOutOfRange)
    ensures v > 100.0 ==> CheckEntry(Entry(ErrorRate, Some(v))) == Failure(ErrorRateOutOfRange)
    ensures AdvertisedMax(ErrorRate) < v <= 100.0 ==> CheckEntry(Entry(ErrorRate, Some(v))).Success?
    ensures CheckEntry(Entry(Broadcast, Some(v))).Success? <==> 0.0 <= v
    ensures CheckEntry(Entry(Collisions, Some(v))).Success? <==> 0.0 <= v
  {
  }

  /**
   * Keys are checked in dialog order: a bad utilization entry decides the
   * error even when every later entry is bad too, and the negative check
   * comes before any range check.
   */
  lemma FirstFailureDecides(u: real, er: Option<real>, b: Option<real>, c: Option<real>)
    requires u < 0.0
    ensures Validate(DialogEntries(Some(u), er, b, c)) == Failure(NegativeValue(Utilization))
  {
  }
}
