/**
 The calldata of an account's execute entry point and the transaction hash over it. Felts are numbers;
 a length is a machine word and so always below the field's modulus.
*/
module Calldata {
  import opened Options

  datatype Call = Call(to: nat, selector: nat, calldata: seq<nat>)

  // ----- encoding ----------------------------------------------------------------------------------------

  /** The call array: target, selector, where the arguments start, how many there are. */
  function Headers(calls: seq<Call>, offset: nat): seq<nat> {
    if calls == [] then []
    else
      [calls[0].to, calls[0].selector, offset, |calls[0].calldata|]
      + Headers(calls[1..], offset + |calls[0].calldata|)
  }

  function Arguments(calls: seq<Call>): seq<nat> {
    if calls == [] then [] else calls[0].calldata + Arguments(calls[1..])
  }

  function Encoded(calls: seq<Call>): seq<nat> {
    [|calls|] + Headers(calls, 0) + [|Arguments(calls)|] + Arguments(calls)
  }

  /** What is pushed so far and what calls `i` on still add make up the encoding. */
  predicate Encoding(pushed: seq<nat>, arguments: seq<nat>, calls: seq<Call>, i: nat) {
    && i <= |calls|
    && pushed + Headers(calls[i..], |arguments|) == [|calls|] + Headers(calls, 0)
    && arguments + Arguments(calls[i..]) == Arguments(calls)
  }

  lemma EncodeStep(pushed: seq<nat>, arguments: seq<nat>, calls: seq<Call>, i: nat)
    requires i < |calls| && Encoding(pushed, arguments, calls, i)
    ensures Encoding(pushed + [calls[i].to, calls[i].selector, |arguments|, |calls[i].calldata|],
                     arguments + calls[i].calldata, calls, i + 1)
  {
    assert calls[i..][1..] == calls[i + 1..];
    var header := [calls[i].to, calls[i].selector, |arguments|, |calls[i].calldata|];
    var later := Headers(calls[i + 1..], |arguments| + |calls[i].calldata|);
    assert pushed + (header + later) == pushed + header + later;
    var arguments' := Arguments(calls[i + 1..]);
    assert arguments + (calls[i].calldata + arguments') == arguments + calls[i].calldata + arguments';
  }

  lemma EncodeStart(calls: seq<Call>)
    ensures Encoding([|calls|], [], calls, 0)
  {
    assert calls[0..] == calls;
  }

  lemma EncodeEnd(pushed: seq<nat>, arguments: seq<nat>, calls: seq<Call>)
    requires Encoding(pushed, arguments, calls, |calls|)
    ensures pushed + [|arguments|] + arguments == Encoded(calls)
  {
  }

  method RawCalldata(calls: seq<Call>) returns (executeCalldata: seq<nat>)
    ensures executeCalldata == Encoded(calls)
  {
    hide Encoding, Encoded;
    var concatedCalldata: seq<nat> := [];
    executeCalldata := [|calls|];
    EncodeStart(calls);
    for i := 0 to |calls|
      invariant Encoding(executeCalldata, concatedCalldata, calls, i)
    {
      var call := calls[i];
      EncodeStep(executeCalldata, concatedCalldata, calls, i);
      ghost var before := executeCalldata;
      executeCalldata := executeCalldata + [call.to];
      executeCalldata := executeCalldata + [call.selector];
      executeCalldata := executeCalldata + [|concatedCalldata|];
      executeCalldata := executeCalldata + [|call.calldata|];
      assert executeCalldata == before + [call.to, call.selector, |concatedCalldata|, |call.calldata|];
      concatedCalldata := PushAll(concatedCalldata, call.calldata);
    }
    EncodeEnd(executeCalldata, concatedCalldata, calls);
    executeCalldata := executeCalldata + [|concatedCalldata|];
    executeCalldata := PushAll(executeCalldata, concatedCalldata);
  }

  /** Pushes the items one by one. */
  method PushAll(buffer: seq<nat>, items: seq<nat>) returns (r: seq<nat>)
    ensures r == buffer + items
  {
    r := buffer;
    for k := 0 to |items|
      invariant r == buffer + items[..k]
    {
      r := r + [items[k]];
    }
    assert items[..|items|] == items;
  }

  // ----- decoding ------------------------------------------------------------------------------------------

  /** The call whose header is the i-th of n, its arguments cut out by offset and length. */
  function CallAt(data: seq<nat>, n: nat, i: nat): Option<Call> {
    var h, body := 1 + 4 * i, 2 + 4 * n;
    if h + 4 > |data| || body + data[h + 2] + data[h + 3] > |data| then None
    else Some(Call(data[h], data[h + 1], data[body + data[h + 2]..body + data[h + 2] + data[h + 3]]))
  }

  function DecodeFrom(data: seq<nat>, n: nat, i: nat): Option<seq<Call>>
    decreases n - i
  {
    if i >= n then Some([])
    else
      match (CallAt(data, n, i), DecodeFrom(data, n, i + 1))
      case (Some(call), Some(rest)) => Some([call] + rest)
      case _ => None
  }

  function Decode(data: seq<nat>): Option<seq<Call>> {
    if data == [] then None else DecodeFrom(data, data[0], 0)
  }

  lemma {:induction false} HeadersLength(calls: seq<Call>, offset: nat)
    ensures |Headers(calls, offset)| == 4 * |calls|
  {
    if calls != [] { HeadersLength(calls[1..], offset + |calls[0].calldata|); }
  }

  /** Header i says where the arguments of call i start. */
  lemma {:induction false} HeaderAt(calls: seq<Call>, offset: nat, i: nat)
    requires i < |calls|
    ensures |Headers(calls, offset)| == 4 * |calls|
    ensures Headers(calls, offset)[4 * i..4 * i + 4]
         == [calls[i].to, calls[i].selector, offset + |Arguments(calls[..i])|, |calls[i].calldata|]
  {
    HeadersLength(calls, offset);
    if i > 0 {
      var rest, offset' := calls[1..], offset + |calls[0].calldata|;
      HeaderAt(rest, offset', i - 1);
      HeadersTail(calls, offset);
      hide Headers;
      assert calls[..i][1..] == rest[..i - 1];
      assert Headers(calls, offset)[4 * i..4 * i + 4] == Headers(rest, offset')[4 * (i - 1)..4 * (i - 1) + 4];
    }
  }

  lemma HeadersTail(calls: seq<Call>, offset: nat)
    requires calls != []
    ensures |Headers(calls, offset)| >= 4
    ensures Headers(calls, offset)[4..] == Headers(calls[1..], offset + |calls[0].calldata|)
  {
  }

  /** That is where they are. */
  lemma {:induction false} ArgumentsAt(calls: seq<Call>, i: nat)
    requires i < |calls|
    ensures var at := |Arguments(calls[..i])|; var len := |calls[i].calldata|;
      at + len <= |Arguments(calls)| && Arguments(calls)[at..at + len] == calls[i].calldata
  {
    if i > 0 {
      var rest, first := calls[1..], calls[0].calldata;
      ArgumentsAt(rest, i - 1);
      assert calls[..i][1..] == rest[..i - 1];
      var at := |Arguments(rest[..i - 1])|;
      assert Arguments(calls)[|first| + at..|first| + at + |calls[i].calldata|]
          == Arguments(rest)[at..at + |calls[i].calldata|];
    }
  }

  lemma CallIs(calls: seq<Call>, i: nat)
    requires i < |calls|
    ensures CallAt(Encoded(calls), |calls|, i) == Some(calls[i])
  {
    hide Headers, Arguments;
    HeaderAt(calls, 0, i);
    ArgumentsAt(calls, i);
    var data, head, args, at := Encoded(calls), Headers(calls, 0), Arguments(calls), |Arguments(calls[..i])|;
    var body, header := 2 + 4 * |calls|, head[4 * i..4 * i + 4];
    assert data[1 + 4 * i] == header[0] && data[2 + 4 * i] == header[1];
    assert data[3 + 4 * i] == header[2] && data[4 + 4 * i] == header[3];
    assert data[body + at..body + at + |calls[i].calldata|] == args[at..at + |calls[i].calldata|];
  }

  lemma ArgumentsAppend(calls: seq<Call>, call: Call)
    ensures Arguments(calls + [call]) == Arguments(calls) + call.calldata
    decreases |calls|
  {
    if calls == [] {
      assert [call][1..] == [] && Arguments([]) == [];
    } else {
      assert (calls + [call])[1..] == calls[1..] + [call];
      ArgumentsAppend(calls[1..], call);
    }
  }

  /** Where everything stands: the number of calls; for call i its target, its selector, the number of
      arguments before its own, and that of its own; the number of all arguments; and the arguments. */
  lemma EncodedLayout(calls: seq<Call>, i: nat)
    requires i < |calls|
    ensures var data, n, offset := Encoded(calls), |calls|, |Arguments(calls[..i])|;
      && |data| == 2 + 4 * n + |Arguments(calls)| && data[0] == n
      && data[1 + 4 * i] == calls[i].to && data[2 + 4 * i] == calls[i].selector
      && data[3 + 4 * i] == offset && data[4 + 4 * i] == |calls[i].calldata|
      && data[1 + 4 * n] == |Arguments(calls)| && offset + |calls[i].calldata| <= |Arguments(calls)|
      && data[2 + 4 * n + offset..2 + 4 * n + offset + |calls[i].calldata|] == calls[i].calldata
    ensures |Arguments(calls[..0])| == 0
    ensures |Arguments(calls[..i + 1])| == |Arguments(calls[..i])| + |calls[i].calldata|
    ensures i + 1 == |calls| ==> calls[..i + 1] == calls
  {
    assert calls[..i + 1] == calls[..i] + [calls[i]];
    ArgumentsAppend(calls[..i], calls[i]);
    assert Arguments(calls[..0]) == [];
    hide Headers, Arguments;
    HeaderAt(calls, 0, i);
    ArgumentsAt(calls, i);
    var data, head, args, at := Encoded(calls), Headers(calls, 0), Arguments(calls), |Arguments(calls[..i])|;
    var body, header := 2 + 4 * |calls|, head[4 * i..4 * i + 4];
    assert data[1 + 4 * i] == header[0] && data[2 + 4 * i] == header[1];
    assert data[3 + 4 * i] == header[2] && data[4 + 4 * i] == header[3];
    assert data[body + at..body + at + |calls[i].calldata|] == args[at..at + |calls[i].calldata|];
  }

  /** With no calls there are only the two counts. */
  lemma EncodedNothing()
    ensures Encoded([]) == [0, 0]
  {
  }

  lemma {:induction false} DecodeFromIs(calls: seq<Call>, i: nat)
    requires i <= |calls|
    ensures DecodeFrom(Encoded(calls), |calls|, i) == Some(calls[i..])
    decreases |calls| - i
  {
    hide CallAt, Encoded;
    if i < |calls| {
      CallIs(calls, i);
      DecodeFromIs(calls, i + 1);
      assert calls[i..] == [calls[i]] + calls[i + 1..];
    } else {
      assert calls[i..] == [];
    }
  }

  /** The calls can be read back from the calldata. */
  lemma DecodeEncoded(calls: seq<Call>)
    ensures Decode(Encoded(calls)) == Some(calls)
  {
    hide DecodeFrom;
    DecodeFromIs(calls, 0);
    assert Encoded(calls)[0] == |calls| && calls[0..] == calls;
  }

  // ----- hashing ----------------------------------------------------------------------------------------------

  type Hash = (nat, nat) -> nat

  function Fold(hash: Hash, data: seq<nat>): nat {
    if data == [] then 0 else hash(Fold(hash, data[..|data| - 1]), data[|data| - 1])
  }

  function HashOn(hash: Hash, data: seq<nat>): nat { hash(Fold(hash, data), |data|) }

  method ComputeHashOnElements(hash: Hash, data: seq<nat>) returns (r: nat)
    ensures r == HashOn(hash, data)
  {
    var currentHash := 0;
    for i := 0 to |data|
      invariant currentHash == Fold(hash, data[..i])
    {
      assert data[..i + 1][..i] == data[..i];
      currentHash := hash(currentHash, data[i]);
    }
    assert data[..|data|] == data;
    r := hash(currentHash, |data|);
  }

  lemma {:induction false} FoldIs(hash: Hash, data: seq<nat>, accs: seq<nat>, i: nat)
    requires |accs| == |data| + 1 && accs[0] == 0 && i <= |data|
    requires forall k :: 0 <= k < |data| ==> accs[k + 1] == hash(accs[k], data[k])
    ensures Fold(hash, data[..i]) == accs[i]
    decreases i
  {
    if i > 0 {
      FoldIs(hash, data, accs, i - 1);
      assert data[..i][..i - 1] == data[..i - 1];
    }
  }

  /** From 0, absorb the elements in order, and the length last. */
  lemma HashOnIs(hash: Hash, data: seq<nat>, accs: seq<nat>)
    requires |accs| == |data| + 1 && accs[0] == 0
    requires forall k :: 0 <= k < |data| ==> accs[k + 1] == hash(accs[k], data[k])
    ensures HashOn(hash, data) == hash(accs[|data|], |data|)
  {
    FoldIs(hash, data, accs, |data|);
    assert data[..|data|] == data;
  }

  /** The pairs the folding of a list hashes. */
  function FoldPairs(hash: Hash, data: seq<nat>): set<(nat, nat)> {
    if data == [] then {}
    else FoldPairs(hash, data[..|data| - 1]) + {(Fold(hash, data[..|data| - 1]), data[|data| - 1])}
  }

  function Pairs(hash: Hash, data: seq<nat>): set<(nat, nat)> {
    FoldPairs(hash, data) + {(Fold(hash, data), |data|)}
  }

  /** No two different pairs of the set hash alike. */
  predicate CollisionFree(hash: Hash, pairs: set<(nat, nat)>) {
    forall a, b :: a in pairs && b in pairs && hash(a.0, a.1) == hash(b.0, b.1) ==> a == b
  }

  lemma {:induction false} FoldInjective(hash: Hash, x: seq<nat>, y: seq<nat>)
    requires |x| == |y| && Fold(hash, x) == Fold(hash, y)
    requires CollisionFree(hash, FoldPairs(hash, x) + FoldPairs(hash, y))
    ensures x == y
    decreases |x|
  {
    if x != [] {
      var n := |x| - 1;
      assert (Fold(hash, x[..n]), x[n]) == (Fold(hash, y[..n]), y[n]);
      FoldInjective(hash, x[..n], y[..n]);
      assert x == x[..n] + [x[n]] && y == y[..n] + [y[n]];
    }
  }

  /** Different lists have different hashes, of whatever lengths, unless the pairwise hash collides. */
  lemma HashOnInjective(hash: Hash, x: seq<nat>, y: seq<nat>)
    requires HashOn(hash, x) == HashOn(hash, y)
    requires CollisionFree(hash, Pairs(hash, x) + Pairs(hash, y))
    ensures x == y
  {
    assert (Fold(hash, x), |x|) == (Fold(hash, y), |y|);
    FoldInjective(hash, x, y);
  }

  // ----- the transaction --------------------------------------------------------------------------------------

  datatype Execution = Execution(calls: seq<Call>, nonce: nat, maxFee: nat)

  const VERSION: nat := 1

  /** The eight elements hashed for a transaction, `prefix` standing for the encoded word "invoke". */
  function Elements(hash: Hash, e: Execution, prefix: nat, chainId: nat, address: nat): seq<nat> {
    [prefix, VERSION, address, 0, HashOn(hash, Encoded(e.calls)), e.maxFee, chainId, e.nonce]
  }

  function TransactionHash(hash: Hash, e: Execution, prefix: nat, chainId: nat, address: nat): nat {
    HashOn(hash, Elements(hash, e, prefix, chainId, address))
  }

  /** The hash absorbs, from 0: prefix, version 1, the account, 0, the hash of the calldata, the maximum
      fee, the chain, the nonce, and the number 8 of elements. */
  lemma TransactionHashIs(hash: Hash, e: Execution, prefix: nat, chainId: nat, address: nat)
    ensures var h1 := hash(hash(hash(hash(0, prefix), 1), address), 0);
      TransactionHash(hash, e, prefix, chainId, address)
        == hash(hash(hash(hash(hash(h1, HashOn(hash, Encoded(e.calls))), e.maxFee), chainId), e.nonce), 8)
  {
    var calldataHash := HashOn(hash, Encoded(e.calls));
    var a1 := hash(0, prefix);
    var a2 := hash(a1, 1);
    var a3 := hash(a2, address);
    var a4 := hash(a3, 0);
    var a5 := hash(a4, calldataHash);
    var a6 := hash(a5, e.maxFee);
    var a7 := hash(a6, chainId);
    var elements := [prefix, 1, address, 0, calldataHash, e.maxFee, chainId, e.nonce];
    assert elements == Elements(hash, e, prefix, chainId, address);
    hide Encoded, Fold;
    HashOnIs(hash, elements, [0, a1, a2, a3, a4, a5, a6, a7, hash(a7, e.nonce)]);
  }

  method ComputeTransactionHash(hash: Hash, e: Execution, prefix: nat, chainId: nat, address: nat) returns (r: nat)
    ensures r == TransactionHash(hash, e, prefix, chainId, address)
    ensures var h1 := hash(hash(hash(hash(0, prefix), 1), address), 0);
      r == hash(hash(hash(hash(hash(h1, HashOn(hash, Encoded(e.calls))), e.maxFee), chainId), e.nonce), 8)
  {
    hide Encoded, HashOn;
    TransactionHashIs(hash, e, prefix, chainId, address);
    var calldata := RawCalldata(e.calls);
    var calldataHash := ComputeHashOnElements(hash, calldata);
    r := ComputeHashOnElements(hash, [prefix, VERSION, address, 0, calldataHash, e.maxFee, chainId, e.nonce]);
  }

  function TransactionPairs(hash: Hash, e: Execution, prefix: nat, chainId: nat, address: nat): set<(nat, nat)> {
    Pairs(hash, Encoded(e.calls)) + Pairs(hash, Elements(hash, e, prefix, chainId, address))
  }

  /** The transaction hash binds the calls, the maximum fee, the nonce, the chain and the account. */
  lemma TransactionHashBinds(hash: Hash, prefix: nat, e: Execution, chainId: nat, address: nat, e': Execution,
                             chainId': nat, address': nat)
    requires TransactionHash(hash, e, prefix, chainId, address) == TransactionHash(hash, e', prefix, chainId', address')
    requires CollisionFree(hash, TransactionPairs(hash, e, prefix, chainId, address)
                                 + TransactionPairs(hash, e', prefix, chainId', address'))
    ensures e == e' && chainId == chainId' && address == address'
  {
    hide HashOn, Pairs, Encoded, Decode;
    var x, y := Elements(hash, e, prefix, chainId, address), Elements(hash, e', prefix, chainId', address');
    HashOnInjective(hash, x, y);
    assert x[2] == y[2] && x[4] == y[4] && x[5] == y[5] && x[6] == y[6] && x[7] == y[7];
    HashOnInjective(hash, Encoded(e.calls), Encoded(e'.calls));
    DecodeEncoded(e.calls);
    DecodeEncoded(e'.calls);
  }
}
