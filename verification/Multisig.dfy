/** Gas for signature verification: mutual recursion over nested multisig keys, charging a mutable meter. */
module Multisig {
  import opened MachineInts

  const ETH_COST := 21000

  datatype PubKey = EthSecp256k1 | Ed25519 | MultisigKey(keys: Keys) | OtherKey
  datatype Keys = NoKeys | MoreKeys(head: PubKey, tail: Keys)

  /** Signature data: single, or a bit per key with the signatures of the set bits. */
  datatype SigData = Single | Multi(bits: seq<bool>, signatures: seq<SigData>)

  function KeyCount(ks: Keys): nat {
    match ks case NoKeys => 0 case MoreKeys(_, t) => 1 + KeyCount(t)
  }

  function KeyAt(ks: Keys, i: nat): (k: PubKey)
    requires i < KeyCount(ks)
    ensures k < ks
  {
    if i == 0 then ks.head else KeyAt(ks.tail, i - 1)
  }

  /** `Panicked` is a Go panic: gas overflow, or a key or signature index out of range. */
  datatype Verdict = Accepted | Refused | Panicked

  // ----- the meter -----

  class GasMeter {
    var consumed: Uint64

    constructor ()
      ensures consumed == 0
    {
      consumed := 0;
    }

    /** ConsumeGas: the field is overwritten with 0 before the overflow panic. */
    method ConsumeGas(amount: Uint64) returns (panics: bool)
      modifies this
      ensures panics <==> old(consumed) + amount >= TWO_64
      ensures consumed == if panics then 0 else old(consumed) + amount
    {
      if TWO_64 - 1 - consumed < amount {
        consumed := 0;
        return true;
      }
      consumed := consumed + amount;
      panics := false;
    }
  }

  // ----- what the recursion computes -----

  datatype Outcome = Outcome(verdict: Verdict, consumed: Uint64)

  function Charge(consumed: Uint64, amount: Uint64, verdict: Verdict): Outcome {
    if consumed + amount >= TWO_64 then Outcome(Panicked, 0) else Outcome(verdict, consumed + amount)
  }

  /** SigVerificationGasConsumer on a meter that stands at `consumed`. */
  function Consume(key: PubKey, data: SigData, edCost: Uint64, consumed: Uint64): Outcome
    decreases key, 1, 0
  {
    match key
    case EthSecp256k1 => Charge(consumed, ETH_COST, Accepted)
    case Ed25519 => Charge(consumed, edCost, Refused)
    case MultisigKey(keys) =>
      if data.Single? then Outcome(Refused, consumed)
      else ConsumeFrom(keys, data.bits, data.signatures, edCost, 0, 0, consumed)
    case OtherKey => Outcome(Refused, consumed)
  }

  /** ConsumeMultisignatureVerificationGas from bit `i` on, `rank` signatures being used up. */
  function ConsumeFrom(keys: Keys, bits: seq<bool>, sigs: seq<SigData>, edCost: Uint64,
                       i: nat, rank: nat, consumed: Uint64): Outcome
    requires i <= |bits|
    decreases keys, 0, |bits| - i
  {
    if i == |bits| then Outcome(Accepted, consumed)
    else if !bits[i] then ConsumeFrom(keys, bits, sigs, edCost, i + 1, rank, consumed)
    else if i >= KeyCount(keys) || rank >= |sigs| then Outcome(Panicked, consumed)
    else
      var o := Consume(KeyAt(keys, i), sigs[rank], edCost, consumed);
      if !o.verdict.Accepted? then o
      else ConsumeFrom(keys, bits, sigs, edCost, i + 1, rank + 1, o.consumed)
  }

  // ----- what that means, without the order of the loop -----

  /** How many bits are set below `i`. */
  function Rank(bits: seq<bool>, i: nat): nat
    requires i <= |bits|
  {
    if i == 0 then 0 else Rank(bits, i - 1) + if bits[i - 1] then 1 else 0
  }

  /** Every selected leaf is an Ethereum key, and each set bit has a key at its position and a signature at its rank
      that is in turn acceptable for that key. */
  ghost predicate WellSigned(key: PubKey, data: SigData)
    decreases key
  {
    match key
    case EthSecp256k1 => true
    case MultisigKey(keys) =>
      data.Multi? && forall i :: 0 <= i < |data.bits| && data.bits[i] ==>
        i < KeyCount(keys) && Rank(data.bits, i) < |data.signatures|
        && WellSigned(KeyAt(keys, i), data.signatures[Rank(data.bits, i)])
    case _ => false
  }

  /** The number of selected leaves. */
  ghost function Leaves(key: PubKey, data: SigData): nat
    decreases key, 1, 0
  {
    match key
    case EthSecp256k1 => 1
    case MultisigKey(keys) => if data.Multi? then LeavesFrom(keys, data.bits, data.signatures, 0) else 0
    case _ => 0
  }

  ghost function LeavesFrom(keys: Keys, bits: seq<bool>, sigs: seq<SigData>, i: nat): nat
    requires i <= |bits|
    decreases keys, 0, |bits| - i
  {
    if i == |bits| then 0
    else
      (if bits[i] && i < KeyCount(keys) && Rank(bits, i) < |sigs|
       then Leaves(KeyAt(keys, i), sigs[Rank(bits, i)]) else 0)
      + LeavesFrom(keys, bits, sigs, i + 1)
  }

  ghost predicate WellSignedFrom(keys: Keys, bits: seq<bool>, sigs: seq<SigData>, i: nat) {
    forall j :: i <= j < |bits| && bits[j] ==>
      j < KeyCount(keys) && Rank(bits, j) < |sigs| && WellSigned(KeyAt(keys, j), sigs[Rank(bits, j)])
  }

  /** Multisig gas is exact: the consumer accepts if and only if every selected leaf is an Ethereum key signed at its
      rank and the meter has room; it has then grown by 21000 for each selected leaf. */
  lemma {:induction false} GasExact(key: PubKey, data: SigData, edCost: Uint64, consumed: Uint64)
    ensures var o := Consume(key, data, edCost, consumed);
            var gas := consumed + ETH_COST * Leaves(key, data);
            (o.verdict.Accepted? <==> WellSigned(key, data) && gas < TWO_64)
            && (o.verdict.Accepted? ==> o.consumed == gas)
    decreases key, 1, 0
  {
    if key.MultisigKey? && data.Multi? {
      GasExactFrom(key.keys, data.bits, data.signatures, edCost, 0, consumed);
    }
  }

  lemma {:induction false} GasExactFrom(keys: Keys, bits: seq<bool>, sigs: seq<SigData>, edCost: Uint64,
                                        i: nat, consumed: Uint64)
    requires i <= |bits|
    ensures var o := ConsumeFrom(keys, bits, sigs, edCost, i, Rank(bits, i), consumed);
            var gas := consumed + ETH_COST * LeavesFrom(keys, bits, sigs, i);
            (o.verdict.Accepted? <==> WellSignedFrom(keys, bits, sigs, i) && gas < TWO_64)
            && (o.verdict.Accepted? ==> o.consumed == gas)
    decreases keys, 0, |bits| - i
  {
    if i < |bits| {
      assert WellSignedFrom(keys, bits, sigs, i) <==>
        WellSignedFrom(keys, bits, sigs, i + 1)
        && (bits[i] ==>
              i < KeyCount(keys) && Rank(bits, i) < |sigs| && WellSigned(KeyAt(keys, i), sigs[Rank(bits, i)]));
      if !bits[i] {
        GasExactFrom(keys, bits, sigs, edCost, i + 1, consumed);
      } else if i < KeyCount(keys) && Rank(bits, i) < |sigs| {
        var k, sig := KeyAt(keys, i), sigs[Rank(bits, i)];
        GasExact(k, sig, edCost, consumed);
        var o := Consume(k, sig, edCost, consumed);
        if o.verdict.Accepted? {
          GasExactFrom(keys, bits, sigs, edCost, i + 1, o.consumed);
        }
      }
    }
  }

  // ----- the methods -----

  method SigVerificationGasConsumer(meter: GasMeter, key: PubKey, data: SigData, edCost: Uint64) returns (v: Verdict)
    modifies meter
    ensures var o := Consume(key, data, edCost, old(meter.consumed)); v == o.verdict && meter.consumed == o.consumed
    decreases key, 1, 0
  {
    match key
    case EthSecp256k1 =>
      var panics := meter.ConsumeGas(ETH_COST);
      v := if panics then Panicked else Accepted;
    case Ed25519 =>
      var panics := meter.ConsumeGas(edCost);
      v := if panics then Panicked else Refused;
    case MultisigKey(keys) =>
      if data.Single? {
        return Refused;
      }
      v := ConsumeMultisignature(meter, keys, data.bits, data.signatures, edCost);
    case OtherKey =>
      v := Refused;
  }

  method ConsumeMultisignature(meter: GasMeter, keys: Keys, bits: seq<bool>, sigs: seq<SigData>, edCost: Uint64)
    returns (v: Verdict)
    modifies meter
    ensures var o := ConsumeFrom(keys, bits, sigs, edCost, 0, 0, old(meter.consumed));
            v == o.verdict && meter.consumed == o.consumed
    decreases keys, 0, 0
  {
    var sigIndex: nat := 0;
    ghost var whole := ConsumeFrom(keys, bits, sigs, edCost, 0, 0, meter.consumed);
    for i := 0 to |bits|
      invariant whole == ConsumeFrom(keys, bits, sigs, edCost, i, sigIndex, meter.consumed)
    {
      if !bits[i] {
        continue;
      }
      if i >= KeyCount(keys) || sigIndex >= |sigs| {
        return Panicked;
      }
      v := SigVerificationGasConsumer(meter, KeyAt(keys, i), sigs[sigIndex], edCost);
      if !v.Accepted? {
        return;
      }
      sigIndex := sigIndex + 1;
    }
    v := Accepted;
  }
}
