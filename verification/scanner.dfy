/**
 * The pure steps around the subnet ping sweep: deriving the /24 base from
 * the local address, the 254 probe addresses, and turning the hosts that
 * answered into the list handed to the finish callback.
 */
module Scanner {
  import opened Wrappers
  import opened Text

  /** p is the whole of ip up to and including its last dot. */
  predicate IsLastDotPrefix(p: string, ip: string) {
    && 0 < |p| <= |ip|
    && p == ip[..|p|]
    && p[|p| - 1] == '.'
    && '.' !in ip[|p|..]
  }

  /** A string has at most one prefix that ends at its last dot. */
  lemma LastDotPrefixUnique(p: string, q: string, ip: string)
    requires IsLastDotPrefix(p, ip) && IsLastDotPrefix(q, ip)
    ensures p == q
  {
  }

  /**
   * `get_subnet_base`: the first three dot-separated parts, each followed by
   * a dot, when the address splits into exactly four parts; nothing checks
   * that the parts are numbers, so empty parts are accepted too.
   */
  function SubnetBase(ip: string): (base: Option<string>)
    ensures base.Some? <==> Occurrences(ip, '.') == 3
    ensures base.Some? ==> IsLastDotPrefix(base.value, ip)
    ensures base.Some? ==> Occurrences(base.value, '.') == 3
    ensures base.Some? ==> |Split(ip, '.')| == 4 && ip == base.value + Split(ip, '.')[3]
  {
    var parts := Split(ip, '.');
    SplitCount(ip, '.');
    JoinSplit(ip, '.');
    if |parts| == 4 then
      var base := parts[0] + "." + parts[1] + "." + parts[2] + ".";
      JoinFour(parts, '.');
      assert ip == base + parts[3];
      assert ip[..|base|] == base && ip[|base|..] == parts[3];
      assert Occurrences(base, '.') == 3 by {
        OccurrencesAbsent(parts[0], '.');
        OccurrencesAbsent(parts[1], '.');
        OccurrencesAbsent(parts[2], '.');
        OccurrencesAppend(parts[0], ".", '.');
        OccurrencesAppend(parts[0] + ".", parts[1], '.');
        OccurrencesAppend(parts[0] + "." + parts[1], ".", '.');
        OccurrencesAppend(parts[0] + "." + parts[1] + ".", parts[2], '.');
        OccurrencesAppend(parts[0] + "." + parts[1] + "." + parts[2], ".", '.');
      }
      Some(base)
    else
      None
  }

  /**
   * Any four dot-free parts are accepted, empty or not numeric ones
   * included, and the base is the first three with their dots.
   */
  lemma SubnetBaseAcceptsAnyFourParts(a: string, b: string, c: string, d: string)
    requires '.' !in a && '.' !in b && '.' !in c && '.' !in d
    ensures SubnetBase(a + "." + b + "." + c + "." + d) == Some(a + "." + b + "." + c + ".")
  {
    var parts := [a, b, c, d];
    JoinFour(parts, '.');
    SplitJoin(parts, '.');
  }

  /**
   * Round trip: appending any dot-free host part, such as `str(i)`, to a
   * subnet base and deriving the base again gives the same base, and the
   * appended text is the last part of the address.
   */
  lemma {:induction false} SubnetBaseRoundTrip(ip: string, host: string)
    requires SubnetBase(ip).Some?
    requires '.' !in host
    ensures SubnetBase(SubnetBase(ip).value + host) == SubnetBase(ip)
    ensures Split(SubnetBase(ip).value + host, '.')[3] == host
  {
    var base := SubnetBase(ip).value;
    var addr := base + host;
    OccurrencesAppend(base, host, '.');
    OccurrencesAbsent(host, '.');
    var again := SubnetBase(addr).value;
    assert addr[..|base|] == base && addr[|base|..] == host;
    assert IsLastDotPrefix(base, addr);
    LastDotPrefixUnique(again, base, addr);
  }

  /** The number the found list is sorted by: `int(ip.split('.')[-1])`. */
  function LastOctet(ip: string): int {
    var parts := Split(ip, '.');
    DecimalValue(parts[|parts| - 1])
  }

  /** The address the sweep probes for host number i. */
  function HostAddress(base: string, i: nat): string {
    base + NatToString(i)
  }

  /** The probes `base + str(i)` for i in 1..254, in the order they are queued. */
  function Candidates(base: string): seq<string> {
    seq(254, k requires 0 <= k < 254 => HostAddress(base, k + 1))
  }

  /** Every probe lies in the subnet it was derived from and carries its host number as last octet. */
  lemma CandidatesInSubnet(ip: string)
    requires SubnetBase(ip).Some?
    ensures forall k :: 0 <= k < 254 ==>
      && SubnetBase(Candidates(SubnetBase(ip).value)[k]) == SubnetBase(ip)
      && LastOctet(Candidates(SubnetBase(ip).value)[k]) == k + 1
  {
    var base := SubnetBase(ip).value;
    forall k | 0 <= k < 254
      ensures SubnetBase(Candidates(base)[k]) == SubnetBase(ip)
      ensures LastOctet(Candidates(base)[k]) == k + 1
    {
      assert Candidates(base)[k] == HostAddress(base, k + 1);
      HostAddressInSubnet(ip, k + 1);
    }
  }

  /** A single probe address stays in its subnet and its last octet reads back as its host number. */
  lemma HostAddressInSubnet(ip: string, i: nat)
    requires SubnetBase(ip).Some?
    ensures SubnetBase(HostAddress(SubnetBase(ip).value, i)) == SubnetBase(ip)
    ensures LastOctet(HostAddress(SubnetBase(ip).value, i)) == i
  {
    var host := NatToString(i);
    NoDotInNumber(i);
    SubnetBaseRoundTrip(ip, host);
    DecimalRoundTrip(i);
  }

  /** The addresses of the hosts that answered, in the order their replies arrived. */
  function FoundHosts(base: string, responders: seq<nat>): seq<string> {
    seq(|responders|, k requires 0 <= k < |responders| => HostAddress(base, responders[k]))
  }

  /** The last octet of every found address is the host number that answered. */
  lemma FoundHostOctets(localIp: string, responders: seq<nat>)
    requires SubnetBase(localIp).Some?
    ensures forall k :: 0 <= k < |responders| ==>
      LastOctet(FoundHosts(SubnetBase(localIp).value, responders)[k]) == responders[k]
  {
    var found := FoundHosts(SubnetBase(localIp).value, responders);
    forall k | 0 <= k < |responders|
      ensures LastOctet(found[k]) == responders[k]
    {
      HostAddressInSubnet(localIp, responders[k]);
    }
  }

  /** xs in non-decreasing order of key. */
  predicate SortedByKey<T>(xs: seq<T>, key: T -> int) {
    forall i, j :: 0 <= i < j < |xs| ==> key(xs[i]) <= key(xs[j])
  }

  /** The elements of xs whose key is k, in their order in xs. */
  function KeyClass<T>(xs: seq<T>, key: T -> int, k: int): seq<T>
    decreases |xs|
  {
    if |xs| == 0 then []
    else (if key(xs[0]) == k then [xs[0]] else []) + KeyClass(xs[1..], key, k)
  }

  /** Taking a key class distributes over concatenation. */
  lemma {:induction false} KeyClassAppend<T>(a: seq<T>, b: seq<T>, key: T -> int, k: int)
    ensures KeyClass(a + b, key, k) == KeyClass(a, key, k) + KeyClass(b, key, k)
    decreases |a|
  {
    if |a| == 0 {
      assert a + b == b;
    } else {
      var head := if key(a[0]) == k then [a[0]] else [];
      assert (a + b)[0] == a[0];
      assert (a + b)[1..] == a[1..] + b;
      KeyClassAppend(a[1..], b, key, k);
      calc {
        KeyClass(a + b, key, k);
        head + KeyClass(a[1..] + b, key, k);
        head + (KeyClass(a[1..], key, k) + KeyClass(b, key, k));
        (head + KeyClass(a[1..], key, k)) + KeyClass(b, key, k);
        KeyClass(a, key, k) + KeyClass(b, key, k);
      }
    }
  }

  /** A list whose keys all exceed k has an empty k class. */
  lemma {:induction false} KeyClassAbove<T>(xs: seq<T>, key: T -> int, k: int)
    requires forall i :: 0 <= i < |xs| ==> k < key(xs[i])
    ensures KeyClass(xs, key, k) == []
    decreases |xs|
  {
    if |xs| > 0 {
      KeyClassAbove(xs[1..], key, k);
    }
  }

  /**
   * Inserts x after every element whose key is not larger: the result stays
   * sorted, gains exactly x, and x comes last among the elements with its key.
   */
  function InsertByKey<T>(x: T, sorted: seq<T>, key: T -> int): (r: seq<T>)
    requires SortedByKey(sorted, key)
    ensures SortedByKey(r, key)
    ensures multiset(r) == multiset(sorted) + multiset{x}
    ensures forall k :: KeyClass(r, key, k) == KeyClass(sorted, key, k) + (if key(x) == k then [x] else [])
    decreases |sorted|
  {
    if |sorted| == 0 then
      [x]
    else if key(x) < key(sorted[0]) then
      InsertFrontKeyClass(x, sorted, key);
      [x] + sorted
    else
      var rest := InsertByKey(x, sorted[1..], key);
      assert sorted == [sorted[0]] + sorted[1..];
      BoundSurvivesPermutation(rest, sorted[1..], x, key, key(sorted[0]));
      InsertLaterKeyClass(x, sorted, rest, key);
      [sorted[0]] + rest
  }

  /** Putting x in front of a sorted list whose keys all exceed key(x) appends x to its key class. */
  lemma InsertFrontKeyClass<T>(x: T, sorted: seq<T>, key: T -> int)
    requires SortedByKey(sorted, key)
    requires |sorted| > 0 && key(x) < key(sorted[0])
    ensures forall k :: KeyClass([x] + sorted, key, k) == KeyClass(sorted, key, k) + (if key(x) == k then [x] else [])
  {
    forall k ensures KeyClass([x] + sorted, key, k) == KeyClass(sorted, key, k) + (if key(x) == k then [x] else []) {
      assert ([x] + sorted)[1..] == sorted;
      if key(x) == k {
        KeyClassAbove(sorted, key, k);
      }
    }
  }

  /** Keeping the head of sorted in front of rest, where rest is the tail with x inserted, keeps x last in its key class. */
  lemma InsertLaterKeyClass<T>(x: T, sorted: seq<T>, rest: seq<T>, key: T -> int)
    requires |sorted| > 0
    requires forall k :: KeyClass(rest, key, k) == KeyClass(sorted[1..], key, k) + (if key(x) == k then [x] else [])
    ensures forall k :: KeyClass([sorted[0]] + rest, key, k) == KeyClass(sorted, key, k) + (if key(x) == k then [x] else [])
  {
    forall k ensures KeyClass([sorted[0]] + rest, key, k) == KeyClass(sorted, key, k) + (if key(x) == k then [x] else []) {
      var head := if key(sorted[0]) == k then [sorted[0]] else [];
      var mine := if key(x) == k then [x] else [];
      assert ([sorted[0]] + rest)[1..] == rest;
      calc {
        KeyClass([sorted[0]] + rest, key, k);
        head + KeyClass(rest, key, k);
        head + (KeyClass(sorted[1..], key, k) + mine);
        (head + KeyClass(sorted[1..], key, k)) + mine;
        KeyClass(sorted, key, k) + mine;
      }
    }
  }

  /** A lower bound on the keys of tail and on key(x) bounds every key of a permutation of tail plus x. */
  lemma BoundSurvivesPermutation<T>(r: seq<T>, tail: seq<T>, x: T, key: T -> int, lo: int)
    requires multiset(r) == multiset(tail) + multiset{x}
    requires lo <= key(x)
    requires forall k :: 0 <= k < |tail| ==> lo <= key(tail[k])
    ensures forall k :: 0 <= k < |r| ==> lo <= key(r[k])
  {
    forall k | 0 <= k < |r|
      ensures lo <= key(r[k])
    {
      assert r[k] in multiset(r);
      if r[k] != x {
        assert r[k] in multiset(tail);
        var m :| 0 <= m < |tail| && tail[m] == r[k];
      }
    }
  }

  /**
   * Python's stable `list.sort(key=...)`: a permutation of xs in
   * non-decreasing key order in which elements with equal keys keep their
   * relative order from xs.
   */
  function SortByKey<T>(xs: seq<T>, key: T -> int): (r: seq<T>)
    ensures SortedByKey(r, key)
    ensures multiset(r) == multiset(xs)
    ensures forall k :: KeyClass(r, key, k) == KeyClass(xs, key, k)
    decreases |xs|
  {
    if |xs| == 0 then
      []
    else
      var init, last := xs[..|xs| - 1], xs[|xs| - 1];
      assert xs == init + [last];
      var r := InsertByKey(last, SortByKey(init, key), key);
      assert forall k :: KeyClass(r, key, k) == KeyClass(xs, key, k) by {
        forall k ensures KeyClass(r, key, k) == KeyClass(xs, key, k) {
          KeyClassAppend(init, [last], key, k);
          assert [last][1..] == [];
        }
      }
      r
  }

  /** `found_ips.sort(key=lambda ip: int(ip.split('.')[-1]))`. */
  function SortByOctet(hosts: seq<string>): (r: seq<string>)
    ensures SortedByKey(r, LastOctet)
    ensures multiset(r) == multiset(hosts)
    ensures forall k :: KeyClass(r, LastOctet, k) == KeyClass(hosts, LastOctet, k)
  {
    SortByKey(hosts, LastOctet)
  }

  /** The list reported when there is no subnet to sweep. */
  const LoopbackOnly: seq<string> := ["127.0.0.1"]

  /** The simulated agent that is put at the front of every swept list. */
  const SimulatedAgent: string := "127.0.0.1:16161"

  /**
   * The list `scan_network_subnet` hands to its finish callback, given the
   * local address and the host numbers that answered the sweep in the order
   * they answered. Without a base, or on a loopback address, no sweep runs.
   * Otherwise the found addresses are sorted by last octet and the simulated
   * agent is put in front unless "127.0.0.1" is among them.
   */
  function FinishList(localIp: string, responders: seq<nat>): (hosts: seq<string>)
    ensures SubnetBase(localIp).None? || StartsWith(localIp, "127.") ==> hosts == LoopbackOnly
    ensures SubnetBase(localIp).Some? && !StartsWith(localIp, "127.") ==>
      && |hosts| == |responders| + 1
      && hosts[0] == SimulatedAgent
      && multiset(hosts[1..]) == multiset(FoundHosts(SubnetBase(localIp).value, responders))
      && SortedByKey(hosts[1..], LastOctet)
  {
    var base := SubnetBase(localIp);
    if base.None? || StartsWith(localIp, "127.") then
      LoopbackOnly
    else
      var found := FoundHosts(base.value, responders);
      var sorted := SortByOctet(found);
      LoopbackNotFound(localIp, responders);
      var hosts := if "127.0.0.1" !in sorted then [SimulatedAgent] + sorted else sorted;
      assert hosts[1..] == sorted;
      assert |sorted| == |multiset(sorted)| == |multiset(found)| == |responders|;
      hosts
  }

  /** Off the loopback network the sorted found list never holds "127.0.0.1". */
  lemma LoopbackNotFound(localIp: string, responders: seq<nat>)
    requires SubnetBase(localIp).Some? && !StartsWith(localIp, "127.")
    ensures "127.0.0.1" !in SortByOctet(FoundHosts(SubnetBase(localIp).value, responders))
  {
    var found := FoundHosts(SubnetBase(localIp).value, responders);
    forall k | 0 <= k < |found|
      ensures found[k] != "127.0.0.1"
    {
      LoopbackNeverProbed(localIp, responders[k]);
    }
    assert "127.0.0.1" !in multiset(found);
  }

  /**
   * A probe address is "127.0.0.1" only on the loopback network: a probe
   * ends in digits after the last dot of its base, so "127.0.0.1" needs the
   * base "127.0.0.", and then the local address starts with "127.".
   */
  lemma LoopbackNeverProbed(localIp: string, i: nat)
    requires SubnetBase(localIp).Some?
    ensures HostAddress(SubnetBase(localIp).value, i) == "127.0.0.1" ==> StartsWith(localIp, "127.")
  {
    var base := SubnetBase(localIp).value;
    var host := NatToString(i);
    NoDotInNumber(i);
    if base + host == "127.0.0.1" {
      LoopbackBase(base, host);
      LoopbackPrefix(base, localIp);
    }
  }

  /** `str(i)` has no dot. */
  lemma NoDotInNumber(i: nat)
    ensures '.' !in NatToString(i)
  {
  }

  /** An address whose last-dot prefix is "127.0.0." starts with "127.". */
  lemma LoopbackPrefix(base: string, ip: string)
    requires IsLastDotPrefix(base, ip)
    requires base == "127.0.0."
    ensures StartsWith(ip, "127.")
  {
  }

  /** The only base ending in a dot that a dot-free, non-empty host part completes to "127.0.0.1". */
  lemma LoopbackBase(base: string, host: string)
    requires 0 < |base| && base[|base| - 1] == '.'
    requires 0 < |host| && '.' !in host
    requires base + host == "127.0.0.1"
    ensures base == "127.0.0."
  {
    var loopback := "127.0.0.1";
    assert forall j :: |base| <= j < |loopback| ==> loopback[j] == host[j - |base|];
    assert loopback[7] == '.';
    assert |base| == 8;
    assert base == loopback[..8];
  }
}
