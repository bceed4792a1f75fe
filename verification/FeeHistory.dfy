/** The reward percentiles of a block, and the logs of its transactions. */
module FeeHistory {
  import opened MachineInts
  import opened KvStore
  import opened Events

  datatype TxGas = TxGas(gasUsed: Uint64, reward: int)

  // ----- gas by reward -----

  ghost function PickTx(m: multiset<TxGas>): TxGas
    requires m != multiset{}
  {
    var t :| t in m; t
  }

  /** Gas used by the transactions of `m` with a reward of at most `r`. */
  ghost function GasUpTo(m: multiset<TxGas>, r: int): nat
    decreases |m|
  {
    if m == multiset{} then 0
    else
      var t := PickTx(m);
      (if t.reward <= r then t.gasUsed else 0) + GasUpTo(m - multiset{t}, r)
  }

  lemma {:induction false} GasRemove(m: multiset<TxGas>, t: TxGas, r: int)
    requires t in m
    ensures GasUpTo(m, r) == (if t.reward <= r then t.gasUsed else 0) + GasUpTo(m - multiset{t}, r)
    decreases |m|
  {
    var p := PickTx(m);
    if p != t {
      GasRemove(m - multiset{p}, t, r);
      GasRemove(m - multiset{t}, p, r);
      assert m - multiset{p} - multiset{t} == m - multiset{t} - multiset{p};
    }
  }

  /** The same, read off a list. */
  ghost function ListGasUpTo(s: seq<TxGas>, r: int): nat {
    if s == [] then 0
    else
      var n := |s| - 1;
      ListGasUpTo(s[..n], r) + if s[n].reward <= r then s[n].gasUsed else 0
  }

  lemma {:induction false} ListGas(s: seq<TxGas>, r: int)
    ensures ListGasUpTo(s, r) == GasUpTo(multiset(s), r)
  {
    if s != [] {
      var n := |s| - 1;
      assert s == s[..n] + [s[n]];
      assert multiset(s) == multiset(s[..n]) + multiset{s[n]};
      ListGas(s[..n], r);
      GasRemove(multiset(s), s[n], r);
      assert multiset(s) - multiset{s[n]} == multiset(s[..n]);
    }
  }

  /** Gas of the first `k` transactions. */
  ghost function PrefixGas(s: seq<TxGas>, k: nat): nat
    requires k <= |s|
  {
    if k == 0 then 0 else PrefixGas(s, k - 1) + s[k - 1].gasUsed
  }

  lemma {:induction false} PrefixGrows(s: seq<TxGas>, j: nat, k: nat)
    requires j <= k <= |s|
    ensures PrefixGas(s, j) <= PrefixGas(s, k)
  {
    if j < k {
      PrefixGrows(s, j, k - 1);
    }
  }

  ghost predicate Sorted(s: seq<TxGas>) {
    forall i, j :: 0 <= i <= j < |s| ==> s[i].reward <= s[j].reward
  }

  /** Up to its own reward, a sorted list has at least used the gas of the prefix that ends there; below it, at most
      the gas of the prefix before. */
  lemma {:induction false} SortedGas(s: seq<TxGas>, k: nat, r: int, n: nat)
    requires Sorted(s) && k < n <= |s|
    ensures r >= s[k].reward ==> ListGasUpTo(s[..n], r) >= PrefixGas(s, k + 1)
    ensures r < s[k].reward ==> ListGasUpTo(s[..n], r) <= PrefixGas(s, k)
  {
    assert s[..n][..n - 1] == s[..n - 1];
    if n > k + 1 {
      SortedGas(s, k, r, n - 1);
    } else {
      WithinPrefix(s, k, r);
    }
  }

  lemma {:induction false} WithinPrefix(s: seq<TxGas>, k: nat, r: int)
    requires Sorted(s) && k <= |s|
    ensures ListGasUpTo(s[..k], r) <= PrefixGas(s, k)
    ensures (k > 0 ==> r >= s[k - 1].reward) ==> ListGasUpTo(s[..k], r) == PrefixGas(s, k)
  {
    if k > 0 {
      assert s[..k][..k - 1] == s[..k - 1];
      WithinPrefix(s, k - 1, r);
    }
  }

  // ----- the percentile -----

  /** `r` is the least reward of the block whose transactions up to it have used at least `threshold` gas; the
      greatest reward when none have. Nothing here depends on an order of the transactions. */
  ghost predicate IsPercentile(m: multiset<TxGas>, threshold: nat, r: int) {
    && (exists t :: t in m && t.reward == r)
    && (GasUpTo(m, r) >= threshold || forall t :: t in m ==> t.reward <= r)
    && (forall t :: t in m && t.reward < r ==> GasUpTo(m, t.reward) < threshold)
  }

  /** There is one such reward. */
  lemma PercentileUnique(m: multiset<TxGas>, threshold: nat, r: int, r': int)
    requires IsPercentile(m, threshold, r) && IsPercentile(m, threshold, r')
    ensures r == r'
  {
  }

  /** A higher threshold never gives a lower reward. */
  lemma PercentileMonotone(m: multiset<TxGas>, low: nat, high: nat, r: int, r': int)
    requires low <= high && IsPercentile(m, low, r) && IsPercentile(m, high, r')
    ensures r <= r'
  {
  }

  function MaxOfFirst(thresholds: seq<Uint64>, n: nat): (m: Uint64)
    requires n <= |thresholds|
    ensures forall i :: 0 <= i < n ==> thresholds[i] <= m
    ensures m == 0 || exists i :: 0 <= i < n && thresholds[i] == m
  {
    if n == 0 then 0
    else
      var m := MaxOfFirst(thresholds, n - 1);
      if thresholds[n - 1] > m then thresholds[n - 1] else m
  }

  /** The gas of the whole block fits the 64-bit sum. */
  ghost predicate GasFits(s: seq<TxGas>) {
    PrefixGas(s, |s|) < TWO_64
  }

  /** Where the scan of a sorted list stands for the greatest threshold so far, `m`. */
  ghost predicate Stands(s: seq<TxGas>, txIndex: nat, sum: Uint64, m: nat) {
    && txIndex < |s| && sum == ToUint64(PrefixGas(s, txIndex + 1))
    && (GasFits(s) ==> sum >= m || txIndex == |s| - 1)
    && (GasFits(s) && txIndex > 0 ==> PrefixGas(s, txIndex) < m)
  }

  lemma StandsAtPercentile(s: seq<TxGas>, txIndex: nat, sum: Uint64, m: nat)
    requires Sorted(s) && Stands(s, txIndex, sum, m) && GasFits(s)
    ensures txIndex < |s| && IsPercentile(multiset(s), m, s[txIndex].reward)
  {
    PrefixGrows(s, txIndex + 1, |s|);
    var ms, r := multiset(s), s[txIndex].reward;
    assert s[txIndex] in ms;
    assert s[..|s|] == s;
    SortedGas(s, txIndex, r, |s|);
    ListGas(s, r);
    forall t | t in ms && t.reward < r
      ensures GasUpTo(ms, t.reward) < m
    {
      var j :| 0 <= j < |s| && s[j] == t;
      assert j < txIndex;
      SortedGas(s, txIndex, t.reward, |s|);
      ListGas(s, t.reward);
    }
    if txIndex == |s| - 1 {
      assert forall t :: t in ms ==> exists j :: 0 <= j < |s| && s[j] == t;
    }
  }

  lemma SumNext(s: seq<TxGas>, k: nat)
    requires k < |s|
    ensures ToUint64(PrefixGas(s, k + 1)) == ToUint64(ToUint64(PrefixGas(s, k)) + s[k].gasUsed)
  {
  }

  /** When the whole block's gas fits, so does every running sum. */
  lemma SumOfFitting(s: seq<TxGas>)
    ensures GasFits(s) ==> forall k :: 0 <= k <= |s| ==> ToUint64(PrefixGas(s, k)) == PrefixGas(s, k)
  {
    forall k | 0 <= k <= |s| ensures PrefixGas(s, k) <= PrefixGas(s, |s|) {
      PrefixGrows(s, k, |s|);
    }
  }

  /** The inner loop: on to the first prefix that has used the threshold, or to the end. */
  method Advance(s: seq<TxGas>, txIndex: nat, sum: Uint64, threshold: Uint64, ghost m: nat)
    returns (txIndex': nat, sum': Uint64)
    requires Stands(s, txIndex, sum, m)
    ensures Stands(s, txIndex', sum', if threshold > m then threshold else m) && txIndex <= txIndex'
  {
    hide PrefixGas, ToUint64;
    SumOfFitting(s);
    txIndex', sum' := txIndex, sum;
    while sum' < threshold && txIndex' < |s| - 1
      invariant txIndex <= txIndex' < |s| && sum' == ToUint64(PrefixGas(s, txIndex' + 1))
      invariant GasFits(s) ==> sum' >= m || txIndex' == |s| - 1
      invariant GasFits(s) && txIndex' > 0 ==> PrefixGas(s, txIndex') < if threshold > m then threshold else m
      decreases |s| - txIndex'
    {
      PrefixGrows(s, txIndex' + 1, txIndex' + 2);
      SumNext(s, txIndex' + 1);
      txIndex' := txIndex' + 1;
      sum' := ToUint64(sum' + s[txIndex'].gasUsed);
    }
  }

  /** The percentile loop of processBlock. `sorted` is what sort.Sort leaves of the block's transactions: some
      sorted arrangement of them. Thresholds may come in any order. The sum of gas is taken modulo 2^64. */
  method Rewards(txs: seq<TxGas>, sorted: seq<TxGas>, thresholds: seq<Uint64>) returns (rewards: seq<int>)
    requires Sorted(sorted) && multiset(sorted) == multiset(txs)
    ensures |rewards| == |thresholds|
    ensures txs == [] ==> forall i :: 0 <= i < |rewards| ==> rewards[i] == 0
    ensures txs != [] && GasFits(sorted) ==>
              forall i :: 0 <= i < |rewards| ==> IsPercentile(multiset(txs), MaxOfFirst(thresholds, i + 1), rewards[i])
    ensures forall i, j :: 0 <= i <= j < |rewards| ==> rewards[i] <= rewards[j]
  {
    hide *;
    SameLength(sorted, txs);
    if |sorted| == 0 {
      rewards := seq(|thresholds|, _ => 0);
      return;
    }
    rewards := [];
    var txIndex: nat, sumGasUsed: Uint64 := 0, sorted[0].gasUsed;
    StandsFirst(sorted, thresholds);
    for i := 0 to |thresholds|
      invariant |rewards| == i && txIndex < |sorted| && Stands(sorted, txIndex, sumGasUsed, MaxOfFirst(thresholds, i))
      invariant GasFits(sorted) ==>
        forall j :: 0 <= j < i ==> IsPercentile(multiset(txs), MaxOfFirst(thresholds, j + 1), rewards[j])
      invariant forall j :: 0 <= j < i ==> rewards[j] <= sorted[txIndex].reward
      invariant forall j, k :: 0 <= j <= k < i ==> rewards[j] <= rewards[k]
    {
      MaxNext(thresholds, i);
      ghost var before := txIndex;
      txIndex, sumGasUsed := Advance(sorted, txIndex, sumGasUsed, thresholds[i], MaxOfFirst(thresholds, i));
      StandsInside(sorted, before, txIndex, sumGasUsed, MaxOfFirst(thresholds, i + 1));
      if GasFits(sorted) {
        StandsAtPercentile(sorted, txIndex, sumGasUsed, MaxOfFirst(thresholds, i + 1));
      }
      rewards := rewards + [sorted[txIndex].reward];
    }
  }

  lemma StandsInside(s: seq<TxGas>, before: nat, txIndex: nat, sum: Uint64, m: nat)
    requires Sorted(s) && Stands(s, txIndex, sum, m) && before <= txIndex
    ensures txIndex < |s| && s[before].reward <= s[txIndex].reward
  {
  }

  lemma SameLength(a: seq<TxGas>, b: seq<TxGas>)
    requires multiset(a) == multiset(b)
    ensures |a| == |b|
  {
    assert |multiset(a)| == |a| && |multiset(b)| == |b|;
  }

  lemma StandsFirst(s: seq<TxGas>, thresholds: seq<Uint64>)
    requires s != []
    ensures Stands(s, 0, s[0].gasUsed, MaxOfFirst(thresholds, 0))
  {
    assert PrefixGas(s, 1) == PrefixGas(s, 0) + s[0].gasUsed;
  }

  lemma MaxNext(thresholds: seq<Uint64>, i: nat)
    requires i < |thresholds|
    ensures var m := MaxOfFirst(thresholds, i);
            MaxOfFirst(thresholds, i + 1) == if thresholds[i] > m then thresholds[i] else m
  {
  }

  /** So the result is decided by the block and the thresholds: two ways of sorting ties give the same rewards, and
      the rewards do not decrease. */
  lemma RewardsCanonical(txs: seq<TxGas>, thresholds: seq<Uint64>, a: seq<int>, b: seq<int>)
    requires |a| == |b| == |thresholds|
    requires forall i :: 0 <= i < |a| ==> IsPercentile(multiset(txs), MaxOfFirst(thresholds, i + 1), a[i])
    requires forall i :: 0 <= i < |b| ==> IsPercentile(multiset(txs), MaxOfFirst(thresholds, i + 1), b[i])
    ensures a == b
    ensures forall i, j :: 0 <= i <= j < |a| ==> a[i] <= a[j]
  {
    hide IsPercentile;
    forall i | 0 <= i < |a|
      ensures a[i] == b[i]
    {
      PercentileUnique(multiset(txs), MaxOfFirst(thresholds, i + 1), a[i], b[i]);
    }
    forall i, j | 0 <= i <= j < |a|
      ensures a[i] <= a[j]
    {
      MaxGrows(thresholds, i + 1, j + 1);
      PercentileMonotone(multiset(txs), MaxOfFirst(thresholds, i + 1), MaxOfFirst(thresholds, j + 1), a[i], a[j]);
    }
  }

  lemma {:induction false} MaxGrows(thresholds: seq<Uint64>, i: nat, j: nat)
    requires i <= j <= |thresholds|
    ensures MaxOfFirst(thresholds, i) <= MaxOfFirst(thresholds, j)
  {
    if i < j {
      MaxGrows(thresholds, i, j - 1);
    }
  }

  // ----- logs -----

  const KEY_TX_LOG := "txLog"

  /** ParseTxLogsFromEvent; `read` is the JSON decoding of one log. */
  function ParseLogs<L>(read: string -> Option<L>, attrs: seq<Attribute>): Option<seq<L>>
    decreases |attrs|
  {
    if attrs == [] then Some([])
    else if attrs[0].key != KEY_TX_LOG then ParseLogs(read, attrs[1..])
    else
      match read(attrs[0].value)
      case None => None
      case Some(log) =>
        match ParseLogs(read, attrs[1..])
        case None => None
        case Some(rest) => Some([log] + rest)
  }

  /** The `tx_log` events, in order. */
  function LogEvents(events: seq<Event>): seq<Event> {
    if events == [] then []
    else (if events[0].kind == TX_LOG then [events[0]] else []) + LogEvents(events[1..])
  }

  method ParseTxLogs<L>(read: string -> Option<L>, event: Event) returns (r: Option<seq<L>>)
    ensures r == ParseLogs(read, event.attributes)
  {
    var attrs, logs := event.attributes, [];
    assert attrs[0..] == attrs;
    assert ParseLogs(read, attrs).Some? ==> [] + ParseLogs(read, attrs).value == ParseLogs(read, attrs).value;
    for i := 0 to |attrs|
      invariant match ParseLogs(read, attrs[i..])
                case None => ParseLogs(read, attrs) == None
                case Some(rest) => ParseLogs(read, attrs) == Some(logs + rest)
    {
      assert attrs[i..][1..] == attrs[i + 1..];
      if attrs[i].key != KEY_TX_LOG {
        continue;
      }
      var log := read(attrs[i].value);
      if log.None? {
        return None;
      }
      ghost var rest := ParseLogs(read, attrs[i + 1..]);
      assert rest.Some? ==> logs + ([log.value] + rest.value) == (logs + [log.value]) + rest.value;
      logs := logs + [log.value];
    }
    assert logs + [] == logs;
    r := Some(logs);
  }

  /** AllTxLogsFromEvents: the logs of every `tx_log` event, or an error if one of them does not read. */
  method AllTxLogs<L>(read: string -> Option<L>, events: seq<Event>) returns (r: Option<seq<seq<L>>>)
    ensures r.Some? ==> |r.value| == |LogEvents(events)|
    ensures r.Some? ==>
              forall k :: 0 <= k < |r.value| ==> ParseLogs(read, LogEvents(events)[k].attributes) == Some(r.value[k])
    ensures r.None? <==>
              exists k :: 0 <= k < |LogEvents(events)| && ParseLogs(read, LogEvents(events)[k].attributes).None?
  {
    hide ParseLogs;
    var all := [];
    ghost var wanted := LogEvents(events);
    assert events[0..] == events;
    for i := 0 to |events|
      invariant |all| <= |wanted| && wanted[|all|..] == LogEvents(events[i..])
      invariant forall k :: 0 <= k < |all| ==> ParseLogs(read, wanted[k].attributes) == Some(all[k])
    {
      assert events[i..][1..] == events[i + 1..];
      if events[i].kind != TX_LOG {
        assert [] + LogEvents(events[i + 1..]) == LogEvents(events[i + 1..]);
        continue;
      }
      ghost var n := |all|;
      assert wanted[n..][0] == events[i] && wanted[n] == events[i];
      assert wanted[n..][1..] == wanted[n + 1..] && wanted[n..][1..] == LogEvents(events[i + 1..]);
      var logs := ParseTxLogs(read, events[i]);
      if logs.None? {
        return None;
      }
      all := all + [logs.value];
    }
    r := Some(all);
  }

  /** TxLogsFromEvents: the logs of `tx_log` event number `msgIndex`, counted from 0; a negative number counts as 0.
      An error when there is no such event or it does not read. So whenever all logs can be listed, this is the
      entry `msgIndex` of the list, and an error exactly past its end. */
  method TxLogs<L>(read: string -> Option<L>, events: seq<Event>, msgIndex: int) returns (r: Option<seq<L>>)
    ensures var k := if msgIndex < 0 then 0 else msgIndex;
            r == if k < |LogEvents(events)| then ParseLogs(read, LogEvents(events)[k].attributes) else None
  {
    hide ParseLogs;
    var left := msgIndex;
    ghost var wanted := LogEvents(events);
    ghost var k := if msgIndex < 0 then 0 else msgIndex;
    ghost var passed: nat := 0;
    assert events[0..] == events;
    for i := 0 to |events|
      invariant passed <= |wanted| && wanted[passed..] == LogEvents(events[i..])
      invariant (if left < 0 then 0 else left) == k - passed
    {
      assert events[i..][1..] == events[i + 1..];
      if events[i].kind != TX_LOG {
        assert [] + LogEvents(events[i + 1..]) == LogEvents(events[i + 1..]);
        continue;
      }
      assert wanted[passed..][0] == events[i] && wanted[passed] == events[i];
      assert wanted[passed..][1..] == wanted[passed + 1..] && wanted[passed..][1..] == LogEvents(events[i + 1..]);
      if left > 0 {
        left, passed := left - 1, passed + 1;
        continue;
      }
      r := ParseTxLogs(read, events[i]);
      return;
    }
    r := None;
  }
}
