/** The cross-chain batch builder (bsctypes/message.go) and the value summed by SendMessages
    (bsc/api_multi_messages.go). Fees are big.Int objects handled through pointers that may alias. */
module Messages {

  /** math/big.Int: results are written into the receiver, which may alias an operand. */
  class BigInt {
    var val: int

    constructor ()
      ensures val == 0
    {
      val := 0;
    }

    method Add(x: BigInt, y: BigInt)
      modifies this
      ensures val == old(x.val) + old(y.val)
    {
      val := x.val + y.val;
    }

    method Mul(x: BigInt, y: BigInt)
      modifies this
      ensures val == old(x.val) * old(y.val)
    {
      val := x.val * y.val;
    }
  }

  datatype Hub = BucketHub | ObjectHub | GroupHub | PermissionHub | TokenHub

  datatype Operation = CreateBucket | DeleteBucket | DeleteObject | CreateGroup | DeleteGroup | UpdateGroup

  datatype PolicyOperation = CreatePolicy | DeletePolicy

  datatype Message = Message(target: Hub, data: seq<char>, value: BigInt)

  /** One call on the builder. A null `ackFee` stands for a nil option or a nil fee in it; `data` is
      the packed call. */
  datatype Call =
    | Plain(op: Operation, data: seq<char>)
    | PlainPolicy(policyOp: PolicyOperation, data: seq<char>)
    | CallBack(op: Operation, data: seq<char>, gasLimit: BigInt?, ackFee: BigInt?)
    | PolicyCallBack(policyOp: PolicyOperation, data: seq<char>, ackFee: BigInt?)
    | TransferOut(data: seq<char>, amount: BigInt)

  /** The contract each operation is sent to. */
  function Target(c: Call): Hub {
    if c.TransferOut? then TokenHub
    else if c.PlainPolicy? || c.PolicyCallBack? then PermissionHub
    else match c.op
      case CreateBucket => BucketHub
      case DeleteBucket => BucketHub
      case DeleteObject => ObjectHub
      case CreateGroup => GroupHub
      case DeleteGroup => GroupHub
      case UpdateGroup => GroupHub
  }

  /** The call is for this contract, told contract by contract. */
  predicate Serves(hub: Hub, c: Call) {
    match hub
    case BucketHub => (c.Plain? || c.CallBack?) && (c.op == CreateBucket || c.op == DeleteBucket)
    case ObjectHub => (c.Plain? || c.CallBack?) && c.op == DeleteObject
    case GroupHub => (c.Plain? || c.CallBack?) && (c.op == CreateGroup || c.op == DeleteGroup || c.op == UpdateGroup)
    case PermissionHub => c.PlainPolicy? || c.PolicyCallBack?
    case TokenHub => c.TransferOut?
  }

  /** Each call has exactly one contract that serves it, and is sent there. */
  lemma OneHub(c: Call, hub: Hub)
    ensures Serves(hub, c) <==> hub == Target(c)
  {
  }

  ghost function NonNull(x: BigInt?): set<BigInt> { if x == null then {} else {x} }

  /** The integers the caller lends to a call. */
  ghost function Lent(c: Call): set<BigInt> {
    match c
    case Plain(_, _) => {}
    case PlainPolicy(_, _) => {}
    case CallBack(_, _, gasLimit, ackFee) => NonNull(gasLimit) + NonNull(ackFee)
    case PolicyCallBack(_, _, ackFee) => NonNull(ackFee)
    case TransferOut(_, amount) => {amount}
  }

  /** The builder's three price integers, as pointers. */
  datatype Prices = Prices(relayFee: BigInt, minAckRelayFee: BigInt, callbackGasPrice: BigInt) {
    ghost function Objects(): set<BigInt> { {relayFee, minAckRelayFee, callbackGasPrice} }
  }

  /** relayFee + chosen ackFee + callbackGasLimit * callbackGasPrice (where used) + transfer amount. */
  ghost function Fee(c: Call, p: Prices): int
    reads Lent(c), p.Objects()
  {
    match c
    case Plain(_, _) => p.relayFee.val + p.minAckRelayFee.val
    case PlainPolicy(_, _) => p.relayFee.val + p.minAckRelayFee.val
    case CallBack(_, _, gasLimit, ackFee) =>
      p.relayFee.val + (if ackFee == null then p.minAckRelayFee.val else ackFee.val)
        + (if gasLimit == null then 0 else gasLimit.val * p.callbackGasPrice.val)
    case PolicyCallBack(_, _, ackFee) => p.relayFee.val + (if ackFee == null then p.minAckRelayFee.val else ackFee.val)
    case TransferOut(_, amount) => p.relayFee.val + p.minAckRelayFee.val + amount.val
  }

  /** Only the policy callbacks insist on the minimum; there a smaller fee ends the process. */
  ghost predicate Fatal(c: Call, p: Prices)
    reads Lent(c), p.Objects()
  {
    c.PolicyCallBack? && c.ackFee != null && c.ackFee.val < p.minAckRelayFee.val
  }

  /** What the fees of the calls have to do with each other. */
  lemma FeeLaws(p: Prices, op: Operation, policyOp: PolicyOperation, data: seq<char>, gas: BigInt, ack: BigInt,
                amount: BigInt)
    ensures var plain := p.relayFee.val + p.minAckRelayFee.val;
      && Fee(Plain(op, data), p) == Fee(PlainPolicy(policyOp, data), p) == plain
      && Fee(CallBack(op, data, null, null), p) == Fee(PolicyCallBack(policyOp, data, null), p) == plain
      && Fee(TransferOut(data, amount), p) - plain == amount.val
      && Fee(CallBack(op, data, null, ack), p) - plain == ack.val - p.minAckRelayFee.val
      && Fee(PolicyCallBack(policyOp, data, ack), p) - plain == ack.val - p.minAckRelayFee.val
      && Fee(CallBack(op, data, gas, null), p) - plain == gas.val * p.callbackGasPrice.val
      && Fee(CallBack(op, data, gas, ack), p) - Fee(CallBack(op, data, null, ack), p) == gas.val * p.callbackGasPrice.val
  {
  }

  /** A call ends the process exactly when it is a policy callback that offers less than the minimum. */
  lemma FatalLaws(p: Prices, op: Operation, policyOp: PolicyOperation, data: seq<char>, gas: BigInt?, ack: BigInt?,
                  amount: BigInt)
    ensures !Fatal(Plain(op, data), p) && !Fatal(PlainPolicy(policyOp, data), p) && !Fatal(TransferOut(data, amount), p)
    ensures !Fatal(CallBack(op, data, gas, ack), p)
    ensures Fatal(PolicyCallBack(policyOp, data, ack), p) <==> ack != null && ack.val < p.minAckRelayFee.val
  {
  }

  class Builder {
    var messages: seq<Message>
    const prices: Prices

    /** NewMessages keeps the caller's pointers. */
    constructor (relayFee: BigInt, minAckRelayFee: BigInt, callbackGasPrice: BigInt)
      ensures messages == [] && prices == Prices(relayFee, minAckRelayFee, callbackGasPrice)
    {
      messages := [];
      prices := Prices(relayFee, minAckRelayFee, callbackGasPrice);
    }

    /** calculateCallBackFee. */
    method CalculateCallBackFee(gasLimit: BigInt?, ackFee: BigInt?) returns (fee: BigInt)
      ensures fresh(fee) && fee.val == Fee(CallBack(CreateBucket, "", gasLimit, ackFee), prices)
    {
      fee := new BigInt();
      fee.Add(prices.relayFee, prices.minAckRelayFee);
      if ackFee != null {
        fee := new BigInt();
        fee.Add(prices.relayFee, ackFee);
      }
      if gasLimit != null {
        var gasCost := new BigInt();
        gasCost.Mul(gasLimit, prices.callbackGasPrice);
        fee.Add(fee, gasCost);
      }
    }

    /** The fee part of every builder method; false where the code ends the process. */
    method FeeFor(c: Call) returns (ok: bool, fee: BigInt)
      ensures ok <==> !old(Fatal(c, prices))
      ensures fresh(fee) && (ok ==> fee.val == old(Fee(c, prices)))
    {
      ok := true;
      fee := new BigInt();
      match c
      case Plain(_, _) =>
        fee.Add(prices.relayFee, prices.minAckRelayFee);
      case PlainPolicy(_, _) =>
        fee.Add(prices.relayFee, prices.minAckRelayFee);
      case CallBack(_, _, gasLimit, ackFee) =>
        fee := CalculateCallBackFee(gasLimit, ackFee);
      case PolicyCallBack(_, _, ackFee) =>
        var chosen := prices.minAckRelayFee;
        if ackFee != null {
          if ackFee.val < prices.minAckRelayFee.val {
            return false, fee;
          }
          chosen := ackFee;
        }
        fee.Add(prices.relayFee, chosen);
      case TransferOut(_, amount) =>
        fee.Add(prices.relayFee, prices.minAckRelayFee);
        fee.Add(fee, amount);
    }

    /** One builder call: a message with a fresh value object is appended and nothing else changes. */
    method Append(c: Call) returns (ok: bool, fee: BigInt)
      modifies this`messages
      ensures fresh(fee)
      ensures ok <==> !old(Fatal(c, prices))
      ensures ok ==> fee.val == old(Fee(c, prices))
      ensures messages == old(messages) + if ok then [Message(Target(c), c.data, fee)] else []
      ensures ok ==> Serves(messages[|messages| - 1].target, c)
    {
      ok, fee := FeeFor(c);
      if ok {
        OneHub(c, Target(c));
        messages := messages + [Message(Target(c), c.data, fee)];
      }
    }

    /** Build: three arrays of equal length, in the order of the calls. */
    method Build() returns (targets: array<Hub>, data: array<seq<char>>, values: array<BigInt?>)
      ensures fresh(targets) && fresh(data) && fresh(values)
      ensures targets.Length == data.Length == values.Length == |messages|
      ensures forall i :: 0 <= i < |messages| ==>
                targets[i] == messages[i].target && data[i] == messages[i].data && values[i] == messages[i].value
    {
      targets := new Hub[|messages|](_ => BucketHub);
      data := new seq<char>[|messages|](_ => "");
      values := new BigInt?[|messages|](_ => null);
      for i := 0 to |messages|
        invariant forall k :: 0 <= k < i ==>
                    targets[k] == messages[k].target && data[k] == messages[k].data && values[k] == messages[k].value
      {
        targets[i], data[i], values[i] := messages[i].target, messages[i].data, messages[i].value;
      }
    }
  }

  ghost function Total(fees: seq<int>): int {
    if fees == [] then 0 else Total(fees[..|fees| - 1]) + fees[|fees| - 1]
  }

  /** Total is the sum: it has the value of a single fee and adds up over any cut. */
  lemma {:induction false} TotalIsSum(a: seq<int>, b: seq<int>, x: int)
    ensures Total([]) == 0 && Total([x]) == x
    ensures Total(a + b) == Total(a) + Total(b)
    decreases |b|
  {
    assert [x][..0] == [];
    assert Total([x]) == Total([x][..0]) + x;
    if b == [] {
      assert a + b == a;
    } else {
      var front := b[..|b| - 1];
      assert (a + b)[..|a + b| - 1] == a + front;
      TotalIsSum(a, front, x);
    }
  }

  lemma TotalNext(fees: seq<int>, i: nat)
    requires i < |fees|
    ensures Total(fees[..i + 1]) == Total(fees[..i]) + fees[i]
  {
    assert fees[..i + 1][..i] == fees[..i];
  }

  /** The loop of SendMessages: the value sent along is the sum of the values. */
  method SumValues(values: array<BigInt?>, ghost fees: seq<int>) returns (sum: BigInt)
    requires values.Length == |fees|
    requires forall i :: 0 <= i < |fees| ==> values[i] != null && values[i].val == fees[i]
    ensures fresh(sum) && sum.val == Total(fees)
  {
    sum := new BigInt();
    for i := 0 to values.Length
      invariant fresh(sum) && sum.val == Total(fees[..i])
    {
      TotalNext(fees, i);
      sum.Add(sum, values[i]);
    }
    assert fees[..|fees|] == fees;
  }

  // ---------- whole batches ----------

  ghost function AllLent(calls: seq<Call>): set<BigInt> {
    set c, x | c in calls && x in Lent(c) :: x
  }

  /** The fees of the calls, in order. */
  ghost function Fees(calls: seq<Call>, p: Prices): seq<int>
    reads AllLent(calls), p.Objects()
  {
    seq(|calls|, i requires 0 <= i < |calls| reads AllLent(calls), p.Objects() =>
      assert calls[i] in calls; Fee(calls[i], p))
  }

  /** Which calls would end the process. */
  ghost function Fatals(calls: seq<Call>, p: Prices): seq<bool>
    reads AllLent(calls), p.Objects()
  {
    seq(|calls|, i requires 0 <= i < |calls| reads AllLent(calls), p.Objects() =>
      assert calls[i] in calls; Fatal(calls[i], p))
  }

  /** The messages go to the contracts that serve the calls, with their packed data, in order. */
  ghost predicate InOrder(messages: seq<Message>, calls: seq<Call>) {
    |messages| <= |calls|
    && forall k :: 0 <= k < |messages| ==> Serves(messages[k].target, calls[k]) && messages[k].data == calls[k].data
  }

  /** No two messages share a value object. */
  ghost predicate Distinct(messages: seq<Message>) {
    forall j, k :: 0 <= j < k < |messages| ==> messages[j].value != messages[k].value
  }

  /** A chain of builder calls on a new builder: the messages follow the calls, each carries exactly
      its call's fee, and every value is an object of its own that did not exist before. */
  method BuildBatch(p: Prices, calls: seq<Call>) returns (ok: bool, builder: Builder)
    ensures fresh(builder) && builder.prices == p
    ensures ok <==> true !in old(Fatals(calls, p))
    ensures ok ==> |builder.messages| == |calls| && InOrder(builder.messages, calls)
    ensures ok ==> Distinct(builder.messages)
    ensures ok ==> forall k :: 0 <= k < |calls| ==>
              fresh(builder.messages[k].value) && builder.messages[k].value.val == old(Fees(calls, p))[k]
  {
    builder := new Builder(p.relayFee, p.minAckRelayFee, p.callbackGasPrice);
    ghost var fees, fatals := old(Fees(calls, p)), old(Fatals(calls, p));
    for i := 0 to |calls|
      invariant fresh(builder) && builder.prices == p
      invariant |builder.messages| == i && InOrder(builder.messages, calls) && Distinct(builder.messages)
      invariant true !in fatals[..i]
      invariant forall k :: 0 <= k < i ==>
                  fresh(builder.messages[k].value) && builder.messages[k].value.val == fees[k]
    {
      assert Fee(calls[i], p) == fees[i] && Fatal(calls[i], p) == fatals[i];
      var fee;
      ok, fee := builder.Append(calls[i]);
      if !ok {
        return;
      }
      assert fatals[..i + 1] == fatals[..i] + [fatals[i]];
    }
    assert fatals[..|calls|] == fatals;
    ok := true;
  }

  /** Whatever sequence of calls is made, and whichever integers they share with each other, with the
      builder's prices or with themselves, the value sent along is the sum of the fees the calls ask
      for. Nothing that existed before is changed. */
  method RunBatch(relayFee: BigInt, minAckRelayFee: BigInt, callbackGasPrice: BigInt, calls: seq<Call>)
    returns (ok: bool, sum: BigInt)
    ensures var p := Prices(relayFee, minAckRelayFee, callbackGasPrice);
      && (ok <==> true !in old(Fatals(calls, p)))
      && (ok ==> fresh(sum) && sum.val == Total(old(Fees(calls, p))))
  {
    ghost var fees := Fees(calls, Prices(relayFee, minAckRelayFee, callbackGasPrice));
    var built, builder := BuildBatch(Prices(relayFee, minAckRelayFee, callbackGasPrice), calls);
    ok := built;
    sum := new BigInt();
    if ok {
      var targets, data, values := builder.Build();
      sum := SumValues(values, fees);
    }
  }
}
