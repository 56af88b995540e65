/** The on-chain registry of requests: registrations, and state transitions that consume them. */
module Registry {
  import opened Options
  import opened Arith

  datatype RequestKey = RequestKey(requestId: nat, publicKey: nat, requestCommitment: nat)

  /** What a storage slot holds that was never written or was deleted. */
  const EMPTY := RequestKey(0, 0, 0)

  const STARK_BOUND: nat := 0x800000000000011000000000000000000000000000000000000000000000001

  /** The bound is 2^251 + 17 * 2^192 + 1. */
  lemma StarkBoundIs()
    ensures STARK_BOUND == Pow(2, 251) + 17 * Pow(2, 192) + 1
  {
    SmallPowers();
    hide Pow;
    PowAdd(2, 6, 6);
    PowAdd(2, 12, 12);
    PowAdd(2, 24, 24);
    PowAdd(2, 48, 48);
    PowAdd(2, 96, 96);
    PowAdd(2, 192, 48);
    PowAdd(2, 240, 6);
    PowAdd(2, 246, 5);
  }

  lemma SmallPowers()
    ensures Pow(2, 6) == 64 && Pow(2, 5) == 32
  {
  }

  type Keys = map<nat, RequestKey>

  function Lookup(keys: Keys, id: nat): RequestKey { if id in keys then keys[id] else EMPTY }

  predicate ValidKey(publicKey: nat) { 0 < publicKey < STARK_BOUND }

  /** Consumes the triples (id, key, commitment) of a program output one by one; None is a revert. */
  function Consume(keys: Keys, output: seq<nat>): Option<Keys> {
    if output == [] then Some(keys)
    else if |output| < 3 || Lookup(keys, output[0]) != RequestKey(output[0], output[1], output[2]) then None
    else Consume(keys - {output[0]}, output[3..])
  }

  class TensorRoyale {
    var requestKeys: Keys
    var payments: map<(nat, nat), nat>

    constructor ()
      ensures requestKeys == map[] && payments == map[]
    {
      requestKeys, payments := map[], map[];
    }

    /** Returns whether the call went through; a failing one leaves everything as it was. The token
        transfer is foreign: `transferReverts` says whether it reverts. */
    method RegisterRequest(sender: nat, publicKey: nat, requestId: nat, requestCommitment: nat, usdcPayment: nat,
                           transferReverts: bool)
      returns (ok: bool)
      modifies this
      ensures var t := Register(publicKey, requestId, requestCommitment, usdcPayment, transferReverts);
        ok == Step(old(requestKeys), t).Some? && requestKeys == After(old(requestKeys), t)
      ensures ok <==> 0 < publicKey < STARK_BOUND && (usdcPayment > 0 ==> !transferReverts)
      ensures requestKeys
           == if ok then old(requestKeys)[requestId := RequestKey(requestId, publicKey, requestCommitment)]
              else old(requestKeys)
      ensures payments
           == if ok && usdcPayment > 0 then old(payments)[(requestId, sender) := usdcPayment] else old(payments)
    {
      if !(publicKey < STARK_BOUND) { return false; }
      if !(publicKey > 0) { return false; }
      var saved := requestKeys;
      requestKeys := requestKeys[requestId := RequestKey(requestId, publicKey, requestCommitment)];
      if usdcPayment == 0 { return true; }
      if transferReverts {
        requestKeys := saved;
        return false;
      }
      payments := payments[(requestId, sender) := usdcPayment];
      return true;
    }

    /** All triples are consumed, or none is. */
    method TransitionState(programOutput: seq<nat>) returns (ok: bool)
      modifies this`requestKeys
      ensures ok == Consume(old(requestKeys), programOutput).Some?
      ensures requestKeys == After(old(requestKeys), Transition(programOutput))
    {
      var saved := requestKeys;
      var i := 0;
      while i < |programOutput|
        invariant 0 <= i <= |programOutput|
        invariant Consume(requestKeys, programOutput[i..]) == Consume(saved, programOutput)
      {
        if i + 2 >= |programOutput| {
          requestKeys := saved;
          return false;
        }
        var requestId, publicKey, requestCommitment := programOutput[i], programOutput[i + 1], programOutput[i + 2];
        var key := Lookup(requestKeys, requestId);
        assert programOutput[i..][3..] == programOutput[i + 3..];
        if key.requestId != requestId || key.publicKey != publicKey || key.requestCommitment != requestCommitment {
          requestKeys := saved;
          return false;
        }
        requestKeys := requestKeys - {requestId};
        i := i + 3;
      }
      return true;
    }
  }

  // ----- one output ------------------------------------------------------------------------------------------

  function Triples(output: seq<nat>): seq<RequestKey> {
    if |output| < 3 then [] else [RequestKey(output[0], output[1], output[2])] + Triples(output[3..])
  }

  function Ids(triples: seq<RequestKey>): set<nat> {
    set k | 0 <= k < |triples| :: triples[k].requestId
  }

  /** Triple k is the key stored under its id once the triples before it are gone. */
  predicate MatchesAt(keys: Keys, triples: seq<RequestKey>, k: nat) {
    k < |triples| ==> triples[k] == Lookup(keys - Ids(triples[..k]), triples[k].requestId)
  }

  ghost predicate AllMatch(keys: Keys, triples: seq<RequestKey>) {
    forall k: nat :: MatchesAt(keys, triples, k)
  }

  predicate DistinctIds(triples: seq<RequestKey>) {
    forall j, k :: 0 <= j < k < |triples| ==> triples[j].requestId != triples[k].requestId
  }

  predicate AllRegistered(keys: Keys, triples: seq<RequestKey>) {
    forall k :: 0 <= k < |triples| ==> Lookup(keys, triples[k].requestId) == triples[k]
  }

  predicate NoZeroId(triples: seq<RequestKey>) {
    forall k :: 0 <= k < |triples| ==> triples[k].requestId != 0
  }

  lemma IdsCons(t: RequestKey, rest: seq<RequestKey>, k: nat)
    requires k <= |rest|
    ensures Ids(([t] + rest)[..k + 1]) == {t.requestId} + Ids(rest[..k])
  {
    var all, head := [t] + rest, rest[..k];
    assert all[..k + 1] == [t] + head;
    forall id | id in {t.requestId} + Ids(head) ensures id in Ids([t] + head) {
      if id == t.requestId {
        assert ([t] + head)[0] == t;
      } else {
        var j :| 0 <= j < |head| && head[j].requestId == id;
        assert ([t] + head)[j + 1] == head[j];
      }
    }
  }

  lemma MatchesCons(keys: Keys, t: RequestKey, rest: seq<RequestKey>)
    ensures AllMatch(keys, [t] + rest) <==> t == Lookup(keys, t.requestId) && AllMatch(keys - {t.requestId}, rest)
  {
    var all := [t] + rest;
    assert all[..0] == [];
    assert MatchesAt(keys, all, 0) <==> t == Lookup(keys - {}, t.requestId);
    forall k: nat | k < |rest|
      ensures MatchesAt(keys, all, k + 1) <==> MatchesAt(keys - {t.requestId}, rest, k)
    {
      IdsCons(t, rest, k);
      assert keys - ({t.requestId} + Ids(rest[..k])) == keys - {t.requestId} - Ids(rest[..k]);
    }
    if t == Lookup(keys, t.requestId) && AllMatch(keys - {t.requestId}, rest) {
      forall k: nat ensures MatchesAt(keys, all, k) {
        if 0 < k <= |rest| { assert MatchesAt(keys - {t.requestId}, rest, k - 1); }
      }
    }
  }

  /** An output is accepted exactly when it is whole triples, each the key found under its id at its turn;
      what is left are the keys of the other ids. */
  lemma {:induction false} AcceptedIff(keys: Keys, output: seq<nat>)
    ensures Consume(keys, output).Some? <==> |output| % 3 == 0 && AllMatch(keys, Triples(output))
    ensures Consume(keys, output).Some? ==> Consume(keys, output).value == keys - Ids(Triples(output))
    decreases |output|
  {
    if |output| >= 3 {
      var t, rest := RequestKey(output[0], output[1], output[2]), Triples(output[3..]);
      AcceptedIff(keys - {t.requestId}, output[3..]);
      MatchesCons(keys, t, rest);
      IdsCons(t, rest, |rest|);
      assert ([t] + rest)[..|rest| + 1] == [t] + rest && rest[..|rest|] == rest;
      assert keys - {t.requestId} - Ids(rest) == keys - ({t.requestId} + Ids(rest));
    } else {
      assert keys - {} == keys;
    }
  }

  /** Apart from id zero, that means: every triple is registered and no id comes twice. */
  lemma MatchIffDistinct(keys: Keys, triples: seq<RequestKey>)
    requires NoZeroId(triples)
    ensures AllMatch(keys, triples) <==> AllRegistered(keys, triples) && DistinctIds(triples)
  {
    if AllMatch(keys, triples) {
      forall j, k | 0 <= j < k < |triples| ensures triples[j].requestId != triples[k].requestId {
        assert MatchesAt(keys, triples, k);
        assert triples[..k][j] == triples[j];
      }
      forall k | 0 <= k < |triples| ensures Lookup(keys, triples[k].requestId) == triples[k] {
        assert MatchesAt(keys, triples, k);
      }
    }
  }

  lemma OutputAcceptedIff(keys: Keys, output: seq<nat>)
    requires NoZeroId(Triples(output))
    ensures Consume(keys, output).Some?
      <==> |output| % 3 == 0 && AllRegistered(keys, Triples(output)) && DistinctIds(Triples(output))
  {
    AcceptedIff(keys, output);
    MatchIffDistinct(keys, Triples(output));
  }

  /** An output of one triple: it names id, public key and commitment in this order, and frees the id. */
  lemma OneTriple(keys: Keys, id: nat, publicKey: nat, requestCommitment: nat)
    ensures Consume(keys, [id, publicKey, requestCommitment]).Some? <==>
      if id in keys then
        keys[id].requestId == id && keys[id].publicKey == publicKey && keys[id].requestCommitment == requestCommitment
      else id == 0 && publicKey == 0 && requestCommitment == 0
    ensures Consume(keys, [id, publicKey, requestCommitment]).Some? ==>
      Consume(keys, [id, publicKey, requestCommitment]).value == keys - {id}
  {
    assert [id, publicKey, requestCommitment][3..] == [];
  }

  /** Id zero needs no registration, and may come twice: an empty slot reads as the all-zero key. */
  lemma ZeroIdNeedsNoRegistration()
    ensures Consume(map[], [0, 0, 0, 0, 0, 0]) == Some(map[])
  {
    AcceptedIff(map[], [0, 0, 0, 0, 0, 0]);
    var k: Keys := map[];
    assert k - {0} == k;
    assert [0, 0, 0, 0, 0, 0][3..] == [0, 0, 0];
  }

  // ----- runs ----------------------------------------------------------------------------------------------------

  datatype Transaction =
    | Register(publicKey: nat, requestId: nat, requestCommitment: nat, usdcPayment: nat, transferReverts: bool)
    | Transition(output: seq<nat>)

  /** The registrations and consumptions that took effect, in order. */
  datatype Entry = Registered(key: RequestKey) | Consumed(key: RequestKey)

  /** The keys after a transaction; None is a revert. */
  function Step(keys: Keys, t: Transaction): Option<Keys> {
    match t
    case Register(pk, id, com, payment, reverts) =>
      if ValidKey(pk) && (payment > 0 ==> !reverts) then Some(keys[id := RequestKey(id, pk, com)]) else None
    case Transition(output) => Consume(keys, output)
  }

  function After(keys: Keys, t: Transaction): Keys {
    match Step(keys, t) case Some(k) => k case None => keys
  }

  function ConsumedAll(triples: seq<RequestKey>): seq<Entry> {
    if triples == [] then [] else [Consumed(triples[0])] + ConsumedAll(triples[1..])
  }

  function Effect(keys: Keys, t: Transaction): seq<Entry> {
    if Step(keys, t).None? then []
    else match t
      case Register(pk, id, com, _, _) => [Registered(RequestKey(id, pk, com))]
      case Transition(output) => ConsumedAll(Triples(output))
  }

  /** The keys and the log after a run from the empty registry. */
  function Run(ts: seq<Transaction>): (Keys, seq<Entry>) {
    if ts == [] then (map[], [])
    else
      var (keys, log) := Run(ts[..|ts| - 1]);
      (After(keys, ts[|ts| - 1]), log + Effect(keys, ts[|ts| - 1]))
  }

  /** The registration of the id not consumed since, or the empty key. */
  function Latest(log: seq<Entry>, id: nat): RequestKey {
    if log == [] then EMPTY
    else
      var last := log[|log| - 1];
      if last.key.requestId != id then Latest(log[..|log| - 1], id)
      else if last.Registered? then last.key
      else EMPTY
  }

  predicate Justified(log: seq<Entry>, k: nat) {
    k < |log| && log[k].Consumed? ==> log[k].key == Latest(log[..k], log[k].key.requestId)
  }

  ghost predicate AllJustified(log: seq<Entry>) {
    forall k: nat :: Justified(log, k)
  }

  predicate ValidRegistrations(log: seq<Entry>) {
    forall k :: 0 <= k < |log| && log[k].Registered? ==> ValidKey(log[k].key.publicKey)
  }

  ghost predicate KeysFollow(keys: Keys, log: seq<Entry>) {
    forall id: nat :: Lookup(keys, id) == Latest(log, id)
  }

  lemma LogAppend(keys: Keys, log: seq<Entry>, e: Entry)
    requires KeysFollow(keys, log) && AllJustified(log) && ValidRegistrations(log)
    requires e.Consumed? ==> e.key == Lookup(keys, e.key.requestId)
    requires e.Registered? ==> ValidKey(e.key.publicKey)
    ensures AllJustified(log + [e]) && ValidRegistrations(log + [e])
    ensures KeysFollow(if e.Registered? then keys[e.key.requestId := e.key] else keys - {e.key.requestId}, log + [e])
  {
    var log' := log + [e];
    assert log'[..|log|] == log;
    forall k: nat ensures Justified(log', k) {
      assert Justified(log, k);
      if k < |log| { assert log'[..k] == log[..k]; }
    }
    forall id: nat
      ensures Lookup(if e.Registered? then keys[e.key.requestId := e.key] else keys - {e.key.requestId}, id)
           == Latest(log', id)
    {
      assert Lookup(keys, id) == Latest(log, id);
    }
  }

  lemma {:induction false} OutputLogged(keys: Keys, log: seq<Entry>, output: seq<nat>)
    requires KeysFollow(keys, log) && AllJustified(log) && ValidRegistrations(log) && Consume(keys, output).Some?
    ensures var log' := log + ConsumedAll(Triples(output));
      KeysFollow(Consume(keys, output).value, log') && AllJustified(log') && ValidRegistrations(log')
    decreases |output|
  {
    if output == [] {
      assert log + [] == log;
    } else {
      hide KeysFollow, AllJustified, ValidRegistrations;
      var t := RequestKey(output[0], output[1], output[2]);
      LogAppend(keys, log, Consumed(t));
      OutputLogged(keys - {t.requestId}, log + [Consumed(t)], output[3..]);
      var rest := Triples(output[3..]);
      assert ([t] + rest)[1..] == rest;
      assert log + [Consumed(t)] + ConsumedAll(rest) == log + ([Consumed(t)] + ConsumedAll(rest));
    }
  }

  /** Over every run, the stored keys are the latest unconsumed registrations, and every triple consumed
      was one at its time. */
  lemma {:induction false} RunIsJustified(ts: seq<Transaction>)
    ensures KeysFollow(Run(ts).0, Run(ts).1) && AllJustified(Run(ts).1) && ValidRegistrations(Run(ts).1)
    decreases |ts|
  {
    if ts != [] {
      var n := |ts| - 1;
      RunIsJustified(ts[..n]);
      var (keys, log) := Run(ts[..n]);
      hide KeysFollow, AllJustified, ValidRegistrations;
      if Step(keys, ts[n]).None? {
        assert log + [] == log;
      } else {
        match ts[n]
        case Register(pk, id, com, _, _) => LogAppend(keys, log, Registered(RequestKey(id, pk, com)));
        case Transition(output) => OutputLogged(keys, log, output);
      }
    }
  }

  function Registrations(log: seq<Entry>, id: nat): nat {
    if log == [] then 0
    else
      var last := log[|log| - 1];
      Registrations(log[..|log| - 1], id) + if last.Registered? && last.key.requestId == id then 1 else 0
  }

  function Consumptions(log: seq<Entry>, id: nat): nat {
    if log == [] then 0
    else
      var last := log[|log| - 1];
      Consumptions(log[..|log| - 1], id) + if last.Consumed? && last.key.requestId == id then 1 else 0
  }

  lemma {:induction false} CountsBalance(log: seq<Entry>, id: nat)
    requires AllJustified(log) && id != 0
    ensures Consumptions(log, id) + (if Latest(log, id) == EMPTY then 0 else 1) <= Registrations(log, id)
    decreases |log|
  {
    if log != [] {
      var n := |log| - 1;
      forall k: nat ensures Justified(log[..n], k) {
        assert Justified(log, k);
        if k < n { assert log[..n][..k] == log[..k]; }
      }
      assert Justified(log, n);
      CountsBalance(log[..n], id);
    }
  }

  /** Over every run, a non-zero id is consumed at most as often as it was registered. */
  lemma NeverMoreConsumed(ts: seq<Transaction>, id: nat)
    requires id != 0
    ensures Consumptions(Run(ts).1, id) <= Registrations(Run(ts).1, id)
  {
    RunIsJustified(ts);
    CountsBalance(Run(ts).1, id);
  }

  lemma {:induction false} LatestWasRegistered(log: seq<Entry>, id: nat)
    ensures Latest(log, id) == EMPTY || Registered(Latest(log, id)) in log
    decreases |log|
  {
    if log != [] { LatestWasRegistered(log[..|log| - 1], id); }
  }

  /** Over every run, what is consumed under a non-zero id was registered, with a key in range. */
  lemma ConsumedWasRegistered(ts: seq<Transaction>, k: nat)
    requires k < |Run(ts).1| && Run(ts).1[k].Consumed? && Run(ts).1[k].key.requestId != 0
    ensures Registered(Run(ts).1[k].key) in Run(ts).1[..k] && ValidKey(Run(ts).1[k].key.publicKey)
  {
    var log := Run(ts).1;
    RunIsJustified(ts);
    assert Justified(log, k);
    LatestWasRegistered(log[..k], log[k].key.requestId);
    var j :| 0 <= j < k && log[..k][j] == Registered(log[k].key);
    assert log[j].Registered?;
  }
}
