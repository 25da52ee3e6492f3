/** Writing everything to a socket (src/transport/socket_utils.cpp). */
module SocketUtils {
  import opened Text

  /** What the i-th `send` call on a socket answers: at most 0 is a failure, a positive number is how
      many bytes the socket would take. */
  type SendOracle = nat -> int

  /** The outcome of `send_all`: success, how many bytes went out, and the next `send` call. */
  datatype Delivery = Delivery(ok: bool, sent: nat, calls: nat)

  function Deliver(data: string, oracle: SendOracle, calls: nat): (d: Delivery)
    ensures d.sent <= |data|
    ensures d.ok <==> d.sent == |data|
    decreases |data|
  {
    if data == "" then Delivery(true, 0, calls)
    else if oracle(calls) <= 0 then Delivery(false, 0, calls + 1)
    else
      var n := Min(oracle(calls), |data|);
      var rest := Deliver(data[n..], oracle, calls + 1);
      rest.(sent := n + rest.sent)
  }

  ghost predicate NeverFails(oracle: SendOracle) {
    forall i: nat :: oracle(i) > 0
  }

  lemma {:induction false} DeliverAll(data: string, oracle: SendOracle, calls: nat)
    requires NeverFails(oracle)
    ensures Deliver(data, oracle, calls).ok
    decreases |data|
  {
    if data != "" {
      DeliverAll(data[Min(oracle(calls), |data|)..], oracle, calls + 1);
    }
  }

  lemma DeliverFrom(data: string, total: nat, oracle: SendOracle, calls: nat)
    requires total <= |data|
    ensures total == |data| ==> Deliver(data[total..], oracle, calls) == Delivery(true, 0, calls)
    ensures total < |data| && oracle(calls) <= 0 ==>
              Deliver(data[total..], oracle, calls) == Delivery(false, 0, calls + 1)
    ensures total < |data| && oracle(calls) > 0 ==>
              var n := Min(oracle(calls), |data| - total);
              var rest := Deliver(data[total + n..], oracle, calls + 1);
              Deliver(data[total..], oracle, calls) == rest.(sent := n + rest.sent)
  {
    if total < |data| && oracle(calls) > 0 {
      var n := Min(oracle(calls), |data| - total);
      assert data[total..][n..] == data[total + n..];
    }
  }

  class TargetSocket {
    const oracle: SendOracle
    var calls: nat
    var accepted: string

    constructor (oracle: SendOracle)
      ensures this.oracle == oracle && calls == 0 && accepted == ""
    {
      this.oracle := oracle;
      calls, accepted := 0, "";
    }

    /** One `send` call. */
    method Send(data: string) returns (sent: int)
      requires data != ""
      modifies this
      ensures calls == old(calls) + 1
      ensures sent <= |data|
      ensures oracle(old(calls)) <= 0 ==> sent <= 0 && accepted == old(accepted)
      ensures oracle(old(calls)) > 0 ==>
                sent == Min(oracle(old(calls)), |data|) && accepted == old(accepted) + data[..sent]
    {
      sent := Min(oracle(calls), |data|);
      calls := calls + 1;
      if sent > 0 {
        accepted := accepted + data[..sent];
      }
    }

    /** `send_all`: the socket receives exactly a prefix of `data`, all of it on success. */
    method SendAll(data: string) returns (ok: bool)
      modifies this
      ensures var d := Deliver(data, oracle, old(calls));
              ok == d.ok && calls == d.calls && accepted == old(accepted) + data[..d.sent]
    {
      hide Deliver;
      var total := 0;
      ghost var d := Deliver(data, oracle, calls);
      assert data[0..] == data;
      while total < |data|
        invariant 0 <= total <= |data|
        invariant accepted == old(accepted) + data[..total]
        invariant var rest := Deliver(data[total..], oracle, calls);
                  d == rest.(sent := total + rest.sent)
        decreases |data| - total
      {
        DeliverFrom(data, total, oracle, calls);
        var sent := Send(data[total..]);
        if sent <= 0 {
          return false;
        }
        assert data[..total] + data[total..][..sent] == data[..total + sent];
        total := total + sent;
      }
      DeliverFrom(data, total, oracle, calls);
      ok := true;
    }
  }
}
