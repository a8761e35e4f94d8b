# Network monitor core: two-sample efficiency, thresholds, export summary, subnet lists

This project models the pure computations underneath a desktop network
monitor: a GUI that polls an SNMP agent twice and reports interface
efficiency, lets the user edit alarm thresholds, exports per-agent data with
a summary, and sweeps the local /24 subnet for hosts that answer a ping.

- **Efficiency arithmetic** (`IfMib`, `MainApp`, `SnmpLogic`). Two polls of
  the MIB-II ifTable (RFC 1213, section 6) for interface 1, taken at `t1` and
  `t2`, give elapsed time, bandwidth from summed in+out octets, capacity
  (ifSpeed, with 0 replaced by 100 Mbit/s), utilization, the unicast packet
  delta and the error rate. The only failure is an elapsed time of zero, which
  the program catches and logs instead of any figures. `main.py` and
  `snmp_logic.py` hold two copies of this arithmetic. Both are modelled, and a
  lemma shows they agree. `RateLaws` restates the result per counter and
  without division, and a lemma shows it fixes the result uniquely.
- **Threshold validation** (`ThresholdConfig`). The Save button parses and
  checks the four entries in dialog order. The first failure is the error.
  The callback receives the new thresholds only when all four pass.
- **Export summary** (`DataExport`). The summary block of the SNMP JSON
  export is a set of folds over agent records. A missing field counts as 0.
- **Subnet handling** (`Text`, `Scanner`). This covers `str.split('.')`,
  `get_subnet_base`, the 254 probe addresses, sorting the hosts that answered
  by last octet, and prepending the simulated agent.

Counters are unbounded `int`s, exactly as Python reads them. Rates and
percentages are exact `real`s. The program has no wraparound correction and
keeps no per-target state, so neither does the model. Wraparound shows up as
a negative bandwidth (`MainApp.WrappedCounterExample`).

## Model

| member | source | states |
|---|---|---|
| `MainApp.EfficiencyReport` | main.py:229-254 | It fails exactly when t2 = t1. Otherwise the report meets `RateLaws`: elapsed = t2 − t1; bandwidth·elapsed = 8·(Δin + Δout octets); capacity = ifSpeed of the second poll, or 100 000 000 when that is 0; utilization·capacity = bandwidth·100; error rate is 0 when the unicast delta is ≤ 0, and otherwise error rate·Δpkts = Δerrors·100 |
| `MainApp.DecreasingOctetsGiveNegativeBandwidth` | main.py:233-241 | Nothing corrects or clamps the result. If the summed octets drop while time runs forward and the speed is ≥ 0, bandwidth and utilization are both negative |
| `MainApp.WrappedCounterExample` | main.py:233-239 | A Counter32 that wraps from 2^32 − 6 to 10 in 2 s gives −17 179 869 120 bit/s at the assumed 100 Mbit/s capacity. The correct figure would be 64 bit/s |
| `MainApp.ErrorRateZeroWithoutUnicastGrowth` | main.py:244-254 | If the unicast packet sum does not grow, the error rate is exactly 0, whatever the error delta (which is still second minus first) |
| `IfMib.RateLawsDetermineReport` | main.py:229-254 | Once time has passed, two reports that both meet `RateLaws` are equal, so the laws fully specify the result |
| `SnmpLogic.EfficiencyReport` | snmp_logic.py:106-124 | The same failure condition (delta_t = 0) and the same `RateLaws` as the main.py copy |
| `SnmpLogic.AgreesWithMainApp` | snmp_logic.py:106-124 | On identical samples and timestamps, the two copies give identical results, failure included |
| `SnmpLogic.OctetShiftInvariance` | snmp_logic.py:107-115 | Moving octets between the in and out counters of either sample leaves the whole report unchanged |
| `ThresholdConfig.CheckEntry` | threshold_config.py:139-151 | An entry passes exactly when it parses, is ≥ 0, and is ≤ 100 for utilization and error rate; it then yields the parsed value. Unparsable text is `NotANumber`. A negative value is `NegativeValue(key)` for every key, before any range check |
| `ThresholdConfig.Validate` | threshold_config.py:136-151 | It succeeds exactly when every entry passes. On success the keys are the entry keys, and with distinct keys each maps to its parsed value. On failure the error is that of an entry whose predecessors all passed: the first failure decides |
| `ThresholdConfig.SaveChanges` | threshold_config.py:133-163 | All or nothing. It is saved exactly when every entry passes; the callback receives a map exactly when one is set; that map has exactly the entry keys with their parsed values. Otherwise it is rejected, nothing is delivered, and the error shown is that of the first entry that fails |
| `ThresholdConfig.DialogEntries` | threshold_config.py:46-57 | There are four entries with distinct keys, in the order utilization, error_rate, broadcast, collisions, and entry i carries the i-th parse result |
| `ThresholdConfig.DialogAccepted` | threshold_config.py:136-155 | If all four dialog entries parse and pass, validation yields exactly the four keys, each with its parsed value |
| `ThresholdConfig.DefaultsAccepted` | threshold_config.py:118-123 | The defaults 80.0 / 1.0 / 10000 / 100 pass validation and are saved unchanged |
| `ThresholdConfig.EnforcedBounds` | threshold_config.py:142-149 | Utilization and error rate are accepted exactly on [0, 100], and a value above 100 gets the key's range error. An error rate above the advertised 10 and up to 100 is accepted. Broadcast and collisions accept every non-negative value |
| `ThresholdConfig.FirstFailureDecides` | threshold_config.py:138-149 | A negative utilization is reported as `NegativeValue(Utilization)`, whatever the later entries hold |
| `DataExport.SnmpSummaryOf` | data_export.py:166-180 | total_data_gb·10^9 = Σ octets. total_packets = Σ packets and total_errors = Σ errors. agents_optimal and agents_alert are the 'ÓPTIMO' and 'ALERTA' counts, which together never exceed the number of records. An empty list gives the all-zero summary. Otherwise mean·n = Σ Utilization_% |
| `DataExport.CountStatus` | data_export.py:178-179 | A status count never exceeds the number of records. It is 0 exactly when no record has that Status, and equals the number of records exactly when every record has it |
| `DataExport.EmptyRecordsFold` | data_export.py:168-179 | Every total and every status count of the empty record list is 0 |
| `DataExport.SingleRecordFold` | data_export.py:168-179 | One record contributes its IN + OUT octets, packets and errors (0 when missing), its Utilization_% (0 when missing), and 1 to the count of exactly its own Status. Together with `SummaryAdditive` and `EmptyRecordsFold`, this fixes each fold on every list |
| `DataExport.StatusCountsBounded` | data_export.py:178-179 | The 'ÓPTIMO' and 'ALERTA' counts together never exceed the number of records |
| `DataExport.SummaryAdditive` | data_export.py:168-179 | Octet, packet, error and utilization totals, and every status count, add up over concatenation of record lists |
| `DataExport.MissingFieldsCountAsZero` | data_export.py:168-171 | A record with every field missing leaves every total and status count unchanged |
| `Text.Split` | scanner.py:22 | `ip.split('.')` always has at least one part, and no part contains the separator |
| `Text.JoinSplit` | scanner.py:22 | Joining the parts of a split with the separator gives the original string |
| `Text.SplitCount` | scanner.py:22-23 | The parts number exactly one more than the separators in the string |
| `Text.SplitJoin` | scanner.py:22-24 | Splitting the join of one or more separator-free parts gives the parts back |
| `Text.NatToString` | scanner.py:86 | `str(i)` is non-empty, all decimal digits, and has no leading zero unless it is the single digit "0" |
| `Text.DecimalRoundTrip` | scanner.py:85-96 | Reading `str(n)` back as a decimal number gives n |
| `Scanner.SubnetBase` | scanner.py:20-25 | Present exactly when the address has three dots. A present base is the address up to and including its last dot. It contains exactly three dots, and the address is the base followed by its fourth part |
| `Scanner.SubnetBaseAcceptsAnyFourParts` | scanner.py:22-24 | Any four dot-free parts are accepted, empty or non-numeric ones included |
| `Scanner.SubnetBaseRoundTrip` | scanner.py:20-25 | Appending a dot-free host part to a base and deriving the base again gives the same base, and the host part is the fourth part |
| `Scanner.HostAddressInSubnet` | scanner.py:85-86 | Probe `base + str(i)` stays in its subnet, and its last octet reads back as i |
| `Scanner.CandidatesInSubnet` | scanner.py:85-86 | All 254 queued probes share the base, and probe k has last octet k + 1 |
| `Scanner.FoundHostOctets` | scanner.py:85-96 | The sort key of each found address is the host number that answered |
| `Scanner.InsertByKey` | scanner.py:96 | Inserting into a sorted list keeps it sorted, adds exactly the one element, and places it after every element with an equal key |
| `Scanner.SortByKey` | scanner.py:96 | The result is a permutation of the input with non-decreasing keys. It is stable: for every key, the elements with that key appear in their input order |
| `Scanner.SortByOctet` | scanner.py:96 | The found list becomes a permutation with non-decreasing `int(last octet)`. Addresses with equal last octets keep their order of discovery |
| `Scanner.FinishList` | scanner.py:58-100 | With no base, or a local address starting "127.", the list is exactly ["127.0.0.1"]. Otherwise it has one entry more than there were answers. It starts with "127.0.0.1:16161", and the rest is the found addresses permuted into last-octet order |
| `Scanner.LoopbackNotFound` | scanner.py:96-100 | Off the loopback network the sorted found list never contains "127.0.0.1", so the prepend always happens |
| `Scanner.LoopbackNeverProbed` | scanner.py:61-86 | A probe address equals "127.0.0.1" only if the local address starts with "127." |

## Left out

- SNMP requests and varbind decoding (main.py:135-227, snmp_logic.py:51-104) go through a library that is not part of this model. Samples are plain integer records. A missing varbind (KeyError), a non-numeric varbind and an error indication all abort the query before any figure is logged, and they are not modelled.
- `time.time()` and `time.sleep` are inputs: `t1` and `t2` are given as reals.
- The ping test and the parsing of ping output (main.py:290-361, snmp_logic.py:139-169) depend on the OS and a regex engine.
- The threaded sweep, `ping_host` and `get_local_ip` (scanner.py:7-18, 27-93) involve concurrency, sockets and subprocesses. Which hosts answer, and in what order, is an input (`responders`). The `callback_found` notifications are not modelled. A missing `callback_finish` only drops the list.
- All Tkinter UI, the matplotlib charts, CSV/JSON writing and timestamped file names are left out; they do I/O only.
- agent_manager.py, debug_agent.py and test_snmp.py are left out: they are subprocess and filesystem lifecycle code and a manual network smoke test.
- IEEE floating point: rates, percentages, thresholds and `total_octets / 1e9` are exact reals. `round(avg_utilization, 2)` is not applied. NaN and infinity, which `float()` accepts, are not modelled.
- ThresholdConfig.Entry: `float(text)` is abstracted to its outcome, a parsed real or a parse failure. The decimal-text grammar it accepts is not modelled.
- ThresholdConfig.SaveChanges: an exception raised by the callback itself (threshold_config.py:164-165) is not modelled.
- DataExport.SnmpSummaryOf: a field that is present but holds a non-number (a TypeError in the sum) is not modelled; fields are present numbers or missing.
- Scanner.LastOctet: reads digits with a plain digit fold. Python's `int()` raises on text that is not a number, but every address the sweep produces ends in `str(i)`, where the two agree (`Text.DecimalRoundTrip`).
- Scanner.FinishList: `not base` at scanner.py:61 is modelled as "no base", because a present base always holds at least its three dots and so is never empty.
