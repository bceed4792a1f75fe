/** Per-block reconciliation of the bank and payment ledgers from the keys that changed. */
module Reconciliation {
  import opened MachineInts
  import opened KvStore

  type Denom = seq<Byte>

  /** Bank store: amounts by key, already decoded. */
  type Bank = map<Key, nat>

  // ----- keys -----

  const SUPPLY: Byte := 0
  const BALANCES: Byte := 2
  const STREAM_RECORD: Byte := 3

  function SupplyKey(d: Denom): Key {
    [SUPPLY] + d
  }

  /** Prefix, length-prefixed address, denom. */
  function BalanceKey(addr: seq<Byte>, d: Denom): Key
    requires |addr| < 256
  {
    [BALANCES, |addr|] + addr + d
  }

  predicate HasPrefix(k: Key, p: Byte) {
    k != [] && k[0] == p
  }

  function ParseSupplyDenom(k: Key): Denom
    requires HasPrefix(k, SUPPLY)
  {
    k[1..]
  }

  /** A 20-byte address is taken for granted; a shorter key panics. */
  function ParseBalanceDenom(k: Key): Denom
    requires |k| >= 22
  {
    k[22..]
  }

  /** The denom of a balance key is recovered, without a panic, exactly when the address has 20 bytes. */
  lemma ParseBalanceKey(addr: seq<Byte>, d: Denom)
    requires |addr| < 256
    ensures (|BalanceKey(addr, d)| >= 22 && ParseBalanceDenom(BalanceKey(addr, d)) == d) <==> |addr| == 20
  {
    var k := BalanceKey(addr, d);
    assert |addr| == 20 ==> |k| >= 22 && k[22..] == d;
    assert |k| >= 22 && |addr| != 20 ==> |k[22..]| != |d|;
  }

  /** The balance of a 32-byte address is booked under another denom. */
  lemma LongAddressMisread(d: Denom)
    ensures var k := BalanceKey(Zeros(32), d);
            ParseBalanceDenom(k) == Zeros(32)[20..] + d && ParseBalanceDenom(k) != d
  {
    ParseBalanceKey(Zeros(32), d);
    assert BalanceKey(Zeros(32), d)[22..] == Zeros(32)[20..] + d;
  }

  /** reconBankChanges does not panic on this key. */
  predicate Readable(k: Key) {
    HasPrefix(k, BALANCES) ==> |k| >= 22
  }

  // ----- coins -----

  /** sdk.Coins: amounts by denom, none of them zero. */
  type Coins = c: map<Denom, int> | forall d :: d in c ==> c[d] != 0 witness map[]

  function AmountOf(c: Coins, d: Denom): int {
    if d in c then c[d] else 0
  }

  function AddCoin(c: Coins, d: Denom, amount: int): (r: Coins)
    ensures forall x :: AmountOf(r, x) == AmountOf(c, x) + (if x == d then amount else 0)
  {
    var sum := AmountOf(c, d) + amount;
    if sum == 0 then map x | x in c && x != d :: c[x] else c[d := sum]
  }

  /** SafeSub, its negativity flag ignored. */
  function SubCoins(a: Coins, b: Coins): (r: Coins)
    ensures forall x :: AmountOf(r, x) == AmountOf(a, x) - AmountOf(b, x)
  {
    map x | x in a.Keys + b.Keys && AmountOf(a, x) != AmountOf(b, x) :: AmountOf(a, x) - AmountOf(b, x)
  }

  lemma SameCoins(a: Coins, b: Coins)
    ensures a == b <==> forall d :: AmountOf(a, d) == AmountOf(b, d)
  {
    if forall d :: AmountOf(a, d) == AmountOf(b, d) {
      assert forall d :: d in a <==> AmountOf(a, d) != 0;
      assert forall d :: d in b <==> AmountOf(b, d) != 0;
      assert a.Keys == b.Keys;
    }
  }

  // ----- totals -----

  datatype Side = Supplies | Balances

  /** What key `k` contributes to the total of `d` on one side of the ledger. */
  ghost function Term(side: Side, s: Bank, d: Denom, k: Key): nat {
    if k in s && Readable(k) && Belongs(side, d, k) then s[k] else 0
  }

  ghost predicate Belongs(side: Side, d: Denom, k: Key)
    requires Readable(k)
  {
    if side.Supplies? then HasPrefix(k, SUPPLY) && ParseSupplyDenom(k) == d
    else HasPrefix(k, BALANCES) && ParseBalanceDenom(k) == d
  }

  ghost function TermOf(side: Side, s: Bank, d: Denom): Key -> int {
    k => Term(side, s, d, k)
  }

  ghost function Pick(keys: set<Key>): Key
    requires keys != {}
  {
    var k :| k in keys; k
  }

  ghost function Sum(term: Key -> int, keys: set<Key>): int {
    if keys == {} then 0 else var k := Pick(keys); term(k) + Sum(term, keys - {k})
  }

  /** The sum does not depend on the order in which the keys are taken. */
  lemma {:induction false} SumRemove(term: Key -> int, keys: set<Key>, k: Key)
    requires k in keys
    ensures Sum(term, keys) == term(k) + Sum(term, keys - {k})
    decreases |keys|
  {
    var p := Pick(keys);
    if p != k {
      SumRemove(term, keys - {p}, k);
      SumRemove(term, keys - {k}, p);
      assert keys - {p} - {k} == keys - {k} - {p};
    }
  }

  lemma SumAdd(term: Key -> int, keys: set<Key>, k: Key)
    requires k !in keys
    ensures Sum(term, keys + {k}) == term(k) + Sum(term, keys)
  {
    SumRemove(term, keys + {k}, k);
    assert keys + {k} - {k} == keys;
  }

  lemma {:induction false} SumUnchanged(term: Key -> int, term': Key -> int, keys: set<Key>, same: set<Key>)
    requires keys !! same && forall k :: k in same ==> term(k) == term'(k)
    ensures Sum(term', keys + same) - Sum(term, keys + same) == Sum(term', keys) - Sum(term, keys)
    decreases |same|
  {
    if same == {} {
      assert keys + same == keys;
    } else {
      var k := Pick(same);
      SumRemove(term, keys + same, k);
      SumRemove(term', keys + same, k);
      assert keys + same - {k} == keys + (same - {k});
      SumUnchanged(term, term', keys, same - {k});
    }
  }

  lemma {:induction false} SumIrrelevant(term: Key -> int, keys: set<Key>, more: set<Key>)
    requires keys !! more && forall k :: k in more ==> term(k) == 0
    ensures Sum(term, keys + more) == Sum(term, keys)
    decreases |more|
  {
    if more == {} {
      assert keys + more == keys;
    } else {
      var k := Pick(more);
      SumRemove(term, keys + more, k);
      assert keys + more - {k} == keys + (more - {k});
      SumIrrelevant(term, keys, more - {k});
    }
  }

  /** The diff holds at least every key whose value changed. */
  ghost predicate CoversChanges<V(!new)>(diff: set<Key>, pre: map<Key, V>, cur: map<Key, V>) {
    forall k :: k !in diff ==> (k in pre <==> k in cur) && (k in pre ==> pre[k] == cur[k])
  }

  /** The change over keys that include every changed one is the change over all keys of the two stores. */
  lemma SumCovered(term: Key -> int, term': Key -> int, pre: set<Key>, cur: set<Key>, diff: set<Key>)
    requires forall k :: k !in diff ==> term(k) == term'(k)
    requires (forall k :: k !in pre ==> term(k) == 0) && (forall k :: k !in cur ==> term'(k) == 0)
    ensures Sum(term', diff) - Sum(term, diff) == Sum(term', cur) - Sum(term, pre)
  {
    var all := pre + cur + diff;
    SumIrrelevant(term', cur, all - cur);
    SumIrrelevant(term, pre, all - pre);
    SumUnchanged(term, term', diff, all - diff);
    assert cur + (all - cur) == all && pre + (all - pre) == all && diff + (all - diff) == all;
  }

  ghost function Total(side: Side, s: Bank, d: Denom, keys: set<Key>): int {
    Sum(TermOf(side, s, d), keys)
  }

  /** The whole of one side of the ledger in denom `d`: the sum over every key of the store. */
  ghost function GlobalTotal(side: Side, s: Bank, d: Denom): int {
    Total(side, s, d, s.Keys)
  }

  /** The change over the diff alone is the change of the whole side. */
  lemma DiffChangeIsGlobalChange(side: Side, pre: Bank, cur: Bank, diff: set<Key>, d: Denom)
    requires CoversChanges(diff, pre, cur)
    ensures Total(side, cur, d, diff) - Total(side, pre, d, diff)
            == GlobalTotal(side, cur, d) - GlobalTotal(side, pre, d)
  {
    SumCovered(TermOf(side, pre, d), TermOf(side, cur, d), pre.Keys, cur.Keys, diff);
  }

  // ----- reconBankChanges -----

  /** In every denom the balances changed by what the supply changed by. */
  ghost predicate BalancedChange(pre: Bank, cur: Bank) {
    forall d :: GlobalTotal(Supplies, cur, d) - GlobalTotal(Supplies, pre, d)
             == GlobalTotal(Balances, cur, d) - GlobalTotal(Balances, pre, d)
  }

  /** The same over the keys of the diff alone, which is what the code compares. */
  ghost predicate BalancedOver(pre: Bank, cur: Bank, diff: set<Key>) {
    forall d :: Total(Supplies, cur, d, diff) - Total(Supplies, pre, d, diff)
             == Total(Balances, cur, d, diff) - Total(Balances, pre, d, diff)
  }

  /** The four accumulators after the keys in `done`. */
  ghost predicate Accumulated(c: Coins, side: Side, s: Bank, done: set<Key>) {
    forall d :: AmountOf(c, d) == Total(side, s, d, done)
  }

  /** One turn of the loop on one accumulator. */
  method AddKey(c: Coins, side: Side, s: Bank, k: Key, ghost done: set<Key>) returns (c': Coins)
    requires Readable(k) && k !in done && Accumulated(c, side, s, done)
    requires HasPrefix(k, if side.Supplies? then SUPPLY else BALANCES)
    ensures Accumulated(c', side, s, done + {k})
  {
    c' := c;
    if k in s {
      var denom := if side.Supplies? then ParseSupplyDenom(k) else ParseBalanceDenom(k);
      c' := AddCoin(c, denom, s[k]);
    }
    forall d
      ensures AmountOf(c', d) == Total(side, s, d, done + {k})
    {
      SumAdd(TermOf(side, s, d), done, k);
    }
  }

  lemma PassOver(c: Coins, side: Side, s: Bank, k: Key, done: set<Key>)
    requires k !in done && Accumulated(c, side, s, done)
    requires !HasPrefix(k, if side.Supplies? then SUPPLY else BALANCES)
    ensures Accumulated(c, side, s, done + {k})
  {
    forall d
      ensures AmountOf(c, d) == Total(side, s, d, done + {k})
    {
      SumAdd(TermOf(side, s, d), done, k);
    }
  }

  /** The loop over the diff, in whatever order the map yields its keys. */
  method ReconBankChanges(pre: Bank, cur: Bank, diff: set<Key>) returns (balanced: bool)
    requires forall k :: k in diff ==> Readable(k)
    ensures balanced <==> BalancedOver(pre, cur, diff)
    ensures CoversChanges(diff, pre, cur) ==> (balanced <==> BalancedChange(pre, cur))
  {
    hide Term, Readable, HasPrefix;
    var supplyPre: Coins, balancePre: Coins, supplyCurrent: Coins, balanceCurrent: Coins := map[], map[], map[], map[];
    var rest := diff;
    ghost var done: set<Key> := {};
    while rest != {}
      invariant done !! rest && done + rest == diff
      invariant Accumulated(supplyPre, Supplies, pre, done) && Accumulated(supplyCurrent, Supplies, cur, done)
      invariant Accumulated(balancePre, Balances, pre, done) && Accumulated(balanceCurrent, Balances, cur, done)
      decreases rest
    {
      var k :| k in rest;
      if HasPrefix(k, SUPPLY) {
        OnePrefix(k);
        supplyCurrent := AddKey(supplyCurrent, Supplies, cur, k, done);
        supplyPre := AddKey(supplyPre, Supplies, pre, k, done);
        PassOver(balanceCurrent, Balances, cur, k, done);
        PassOver(balancePre, Balances, pre, k, done);
      } else {
        PassOver(supplyCurrent, Supplies, cur, k, done);
        PassOver(supplyPre, Supplies, pre, k, done);
        if HasPrefix(k, BALANCES) {
          balanceCurrent := AddKey(balanceCurrent, Balances, cur, k, done);
          balancePre := AddKey(balancePre, Balances, pre, k, done);
        } else {
          PassOver(balanceCurrent, Balances, cur, k, done);
          PassOver(balancePre, Balances, pre, k, done);
        }
      }
      rest, done := rest - {k}, done + {k};
    }
    assert done == diff;
    var supplyChanges := SubCoins(supplyCurrent, supplyPre);
    var balanceChanges := SubCoins(balanceCurrent, balancePre);
    balanced := supplyChanges == balanceChanges;
    ComparesChanges(supplyChanges, balanceChanges, pre, cur, diff);
  }

  lemma OnePrefix(k: Key)
    ensures !(HasPrefix(k, SUPPLY) && HasPrefix(k, BALANCES))
  {
  }

  lemma ComparesChanges(supplyChanges: Coins, balanceChanges: Coins, pre: Bank, cur: Bank, diff: set<Key>)
    requires forall d :: AmountOf(supplyChanges, d) == Total(Supplies, cur, d, diff) - Total(Supplies, pre, d, diff)
    requires forall d :: AmountOf(balanceChanges, d) == Total(Balances, cur, d, diff) - Total(Balances, pre, d, diff)
    ensures supplyChanges == balanceChanges <==> BalancedOver(pre, cur, diff)
    ensures CoversChanges(diff, pre, cur) ==> (supplyChanges == balanceChanges <==> BalancedChange(pre, cur))
  {
    hide Total, GlobalTotal, CoversChanges, AmountOf;
    SameCoins(supplyChanges, balanceChanges);
    if CoversChanges(diff, pre, cur) {
      forall d: Denom
        ensures AmountOf(supplyChanges, d) == GlobalTotal(Supplies, cur, d) - GlobalTotal(Supplies, pre, d)
        ensures AmountOf(balanceChanges, d) == GlobalTotal(Balances, cur, d) - GlobalTotal(Balances, pre, d)
      {
        DiffChangeIsGlobalChange(Supplies, pre, cur, diff, d);
        DiffChangeIsGlobalChange(Balances, pre, cur, diff, d);
      }
    }
  }

  // ----- what the totals are -----

  /** Every key is a supply key, a balance key of a 20-byte address, or neither kind. */
  ghost predicate WellFormedBank(s: Bank) {
    forall k :: k in s ==> Readable(k) && (HasPrefix(k, BALANCES) ==> k[1] == 20)
  }

  /** The supply side of a denom is the amount under its one supply key. */
  lemma SupplyIsOneKey(s: Bank, d: Denom)
    ensures GlobalTotal(Supplies, s, d) == if SupplyKey(d) in s then s[SupplyKey(d)] else 0
  {
    var k := SupplyKey(d);
    assert k[1..] == d && HasPrefix(k, SUPPLY) && Readable(k);
    forall x | x in s.Keys - {k}
      ensures Term(Supplies, s, d, x) == 0
    {
      assert HasPrefix(x, SUPPLY) ==> x == [SUPPLY] + x[1..];
    }
    var others := s.Keys - {k};
    if k in s {
      SumRemove(TermOf(Supplies, s, d), s.Keys, k);
    }
    SumIrrelevant(TermOf(Supplies, s, d), {}, others);
    assert {} + others == others && (k !in s ==> others == s.Keys);
  }

  /** In a well-formed store, a key counts towards the balances of `d` exactly when it is the balance key of some
      20-byte address in `d`. */
  lemma BalanceKeysCounted(s: Bank, d: Denom, k: Key)
    requires WellFormedBank(s) && k in s
    ensures Belongs(Balances, d, k) <==> exists addr: seq<Byte> :: |addr| == 20 && k == BalanceKey(addr, d)
  {
    if Belongs(Balances, d, k) {
      var addr := k[2..22];
      assert k == [k[0], k[1]] + addr + k[22..];
      assert |addr| == 20 && k == BalanceKey(addr, d);
    }
    if addr: seq<Byte> :| |addr| == 20 && k == BalanceKey(addr, d) {
      ParseBalanceKey(addr, d);
    }
  }

  // ----- payment flows -----

  /** Stream records by key: the net flow rate, or None for bytes that do not decode. */
  type Payment = map<Key, Option<int>>

  ghost function Flow(s: Payment, k: Key): int {
    if k in s && HasPrefix(k, STREAM_RECORD) && s[k].Some? then s[k].value else 0
  }

  ghost function FlowOf(s: Payment): Key -> int {
    k => Flow(s, k)
  }

  ghost function FlowTotal(s: Payment, keys: set<Key>): int {
    Sum(FlowOf(s), keys)
  }

  /** The net flow of all stream records did not change. */
  ghost predicate SameNetFlow(pre: Payment, cur: Payment) {
    FlowTotal(cur, cur.Keys) == FlowTotal(pre, pre.Keys)
  }

  lemma FlowDiffIsGlobal(pre: Payment, cur: Payment, diff: set<Key>)
    requires CoversChanges(diff, pre, cur)
    ensures FlowTotal(cur, diff) == FlowTotal(pre, diff) <==> SameNetFlow(pre, cur)
  {
    SumCovered(FlowOf(pre), FlowOf(cur), pre.Keys, cur.Keys, diff);
  }

  method ReconPaymentChanges(pre: Payment, cur: Payment, diff: set<Key>) returns (balanced: bool)
    ensures balanced <==> FlowTotal(cur, diff) == FlowTotal(pre, diff)
    ensures CoversChanges(diff, pre, cur) ==> (balanced <==> SameNetFlow(pre, cur))
  {
    var flowCurrent, flowPre, rest := 0, 0, diff;
    ghost var done: set<Key> := {};
    while rest != {}
      invariant done !! rest && done + rest == diff
      invariant flowCurrent == FlowTotal(cur, done) && flowPre == FlowTotal(pre, done)
      decreases rest
    {
      var k :| k in rest;
      SumAdd(FlowOf(cur), done, k);
      SumAdd(FlowOf(pre), done, k);
      if HasPrefix(k, STREAM_RECORD) {
        if k in cur && cur[k].Some? {
          flowCurrent := flowCurrent + cur[k].value;
        }
        if k in pre && pre[k].Some? {
          flowPre := flowPre + pre[k].value;
        }
      }
      rest, done := rest - {k}, done + {k};
    }
    assert done == diff;
    balanced := flowCurrent == flowPre;
    if CoversChanges(diff, pre, cur) {
      FlowDiffIsGlobal(pre, cur, diff);
    }
  }

  // ----- reconcile, and runs of blocks -----

  class Reconciler {
    var unbalanced: Option<nat>
    var bankDiff: set<Key>
    var paymentDiff: set<Key>

    constructor ()
      ensures unbalanced == None && bankDiff == {} && paymentDiff == {}
    {
      unbalanced, bankDiff, paymentDiff := None, {}, {};
    }

    /** `panics` is the refusal to go on after a recorded height. */
    method Reconcile(height: nat, bankPre: Bank, bankCur: Bank, paymentPre: Payment, paymentCur: Payment)
      returns (panics: bool)
      requires forall k :: k in bankDiff ==> Readable(k)
      requires height > 2 ==> CoversChanges(bankDiff, bankPre, bankCur)
      requires height > 2 ==> CoversChanges(paymentDiff, paymentPre, paymentCur)
      modifies this
      ensures panics <==> height > 2 && old(unbalanced).Some?
      ensures height <= 2 || panics ==>
        unbalanced == old(unbalanced) && bankDiff == old(bankDiff) && paymentDiff == old(paymentDiff)
      ensures height > 2 && !panics ==>
        bankDiff == {} && paymentDiff == {}
        && var balanced := BalancedChange(bankPre, bankCur) && SameNetFlow(paymentPre, paymentCur);
           unbalanced == if balanced then None else Some(height)
    {
      hide *;
      panics := false;
      if height <= 2 {
        return;
      }
      if unbalanced.Some? {
        return true;
      }
      var bankBalanced := ReconBankChanges(bankPre, bankCur, bankDiff);
      bankDiff := {};
      var paymentBalanced := ReconPaymentChanges(paymentPre, paymentCur, paymentDiff);
      paymentDiff := {};
      if !bankBalanced || !paymentBalanced {
        unbalanced := Some(height);
      }
    }

    /** The end of block `height`, the committed ledgers being those of `v`: a node that has followed a run so far
        goes on following it. */
    method EndBlock(height: nat, v: nat -> Ledgers) returns (panics: bool)
      requires height > 0 && unbalanced == Recorded(v, height - 1)
      requires forall k :: k in bankDiff ==> Readable(k)
      requires height > 2 ==> CoversChanges(bankDiff, v(height - 2).bank, v(height - 1).bank)
      requires height > 2 ==> CoversChanges(paymentDiff, v(height - 2).payment, v(height - 1).payment)
      modifies this
      ensures unbalanced == Recorded(v, height) && (panics <==> Recorded(v, height - 1).Some?)
    {
      hide BalancedChange, SameNetFlow, CoversChanges, Readable;
      var pre, cur := v(if height > 2 then height - 2 else 0), v(height - 1);
      panics := Reconcile(height, pre.bank, cur.bank, pre.payment, cur.payment);
    }
  }

  /** The ledgers after each block. */
  datatype Ledgers = Ledgers(bank: Bank, payment: Payment)

  /** The block whose end reconciles at `height` compares versions `height - 2` and `height - 1`. */
  ghost predicate ReconciledAt(v: nat -> Ledgers, height: nat)
    requires height > 2
  {
    BalancedChange(v(height - 2).bank, v(height - 1).bank) && SameNetFlow(v(height - 2).payment, v(height - 1).payment)
  }

  /** The recorded height after the ends of blocks 1..height; a node that has recorded one gets no further. */
  ghost function Recorded(v: nat -> Ledgers, height: nat): Option<nat> {
    if height <= 2 then None
    else if Recorded(v, height - 1).Some? then Recorded(v, height - 1)
    else if ReconciledAt(v, height) then None
    else Some(height)
  }

  /** Supply equals the sum of balances, in every denom. */
  ghost predicate Sound(s: Bank) {
    forall d :: GlobalTotal(Supplies, s, d) == GlobalTotal(Balances, s, d)
  }

  /** What a run records is the first unbalanced block, if there is one. */
  lemma {:induction false} RecordsFirstImbalance(v: nat -> Ledgers, height: nat)
    ensures Recorded(v, height) == None <==> forall h :: 2 < h <= height ==> ReconciledAt(v, h)
    ensures forall b :: Recorded(v, height) == Some(b) <==>
              2 < b <= height && !ReconciledAt(v, b) && forall h :: 2 < h < b ==> ReconciledAt(v, h)
  {
    hide ReconciledAt;
    if height > 2 {
      RecordsFirstImbalance(v, height - 1);
    }
  }

  /** Along every run that has recorded nothing, a ledger that began with supply equal to balances and some net flow
      still has both, after every block. */
  lemma {:induction false} LedgerStaysSound(v: nat -> Ledgers, height: nat, h: nat)
    requires Recorded(v, height) == None && 1 <= h < height && height > 2
    ensures Sound(v(1).bank) <==> Sound(v(h).bank)
    ensures FlowTotal(v(h).payment, v(h).payment.Keys) == FlowTotal(v(1).payment, v(1).payment.Keys)
    decreases h
  {
    hide GlobalTotal, FlowTotal;
    RecordsFirstImbalance(v, height);
    if h > 1 {
      LedgerStaysSound(v, height, h - 1);
      assert ReconciledAt(v, h + 1);
    }
  }

  /** And if the ledger was sound until a block broke it, the node records the block after and stops there. */
  lemma BrokenLedgerIsRecorded(v: nat -> Ledgers, h: nat, height: nat)
    requires 1 <= h < height - 1 && Sound(v(h).bank) && !Sound(v(h + 1).bank)
    ensures Recorded(v, height).Some? && Recorded(v, height).value <= h + 2
  {
    hide GlobalTotal, FlowTotal;
    RecordsFirstImbalance(v, height);
    assert !BalancedChange(v(h).bank, v(h + 1).bank);
    assert !ReconciledAt(v, h + 2);
  }
}
