/** The pump as the code runs it: a loop over a reassembly buffer and two sockets
    (the `pump` and `patch_and_send` lambdas of src/transport/tcp_proxy_server.cpp). */
module Pump {
  import opened Text
  import opened Framing
  import opened ProtocolDetector
  import opened SocketUtils
  import opened PumpModel

  class Pump {
    const patch: Patch
    const reassembly: TcpReassemblyBuffer
    const target: TargetSocket
    var decided: bool
    var kind: ProtocolKind
    var unread: seq<Event>
    var status: Status
    var segments: seq<Segment>

    constructor (patch: Patch, oracle: SendOracle, firstPayload: string, events: seq<Event>)
      ensures fresh(reassembly) && fresh(target)
      ensures Environment() == Env(patch, oracle)
      ensures Abstract() == Init(firstPayload, events)
    {
      this.patch := patch;
      var buffer := new TcpReassemblyBuffer();
      reassembly := buffer;
      target := new TargetSocket(oracle);
      decided, kind, unread, status := false, Unknown, events, Running;
      segments := [];
      new;
      if firstPayload != "" {
        reassembly.Append(firstPayload);
      }
      assert "" + firstPayload == firstPayload;
    }

    function Environment(): Env {
      Env(patch, target.oracle)
    }

    function Abstract(): State
      reads this, reassembly, target
    {
      State(reassembly.buffer, decided, kind, unread, segments, target.accepted, target.calls, status)
    }

    /** `patch_and_send`; a false answer makes the caller return from the pump. */
    method PatchAndSend(payload: string) returns (ok: bool)
      modifies this`segments, this`status, target
      ensures Abstract() == Hand(Environment(), old(Abstract()), payload)
      ensures ok ==> status == old(status)
      ensures !ok ==> status == SendFailed
    {
      var patched := patch(kind, payload);
      segments := segments + [Segment(kind, payload)];
      ok := target.SendAll(patched);
      if !ok {
        status := SendFailed;
      }
    }

    /** One turn of the loop: `recv` when the buffer is empty, then detection, then one message or
        everything. */
    method Iterate()
      requires status == Running
      modifies this, reassembly, target
      ensures Abstract() == Step(Environment(), old(Abstract()))
    {
      hide Take, Detect, Dispatch, Finish;
      if reassembly.buffer == "" {
        if unread == [] || unread[0].Shutdown? || unread[0].Broken? {
          Leave();
          return;
        }
        if unread[0].TimedOut? {
          unread := unread[1..];
          return;
        }
        assert "" + unread[0].bytes == unread[0].bytes;
        reassembly.Append(unread[0].bytes);
        unread := unread[1..];
      }
      ghost var loaded := Abstract();
      if !decided {
        kind := DetectProtocolKind(reassembly.buffer);
        if kind != Unknown || |reassembly.buffer| >= 32 {
          decided := true;
        }
      }
      assert Abstract() == Decide(loaded);
      Forward();
    }

    method Forward()
      requires status == Running
      modifies this`segments, this`status, reassembly, target
      ensures Abstract() == Dispatch(Environment(), old(Abstract()))
    {
      hide Take, Hand;
      if kind == Http {
        var ok, message := reassembly.TryTakeHttpMessage();
        if ok {
          ok := PatchAndSend(message);
        } else if |reassembly.buffer| > 8192 {
          var payload := reassembly.TakeAll();
          ok := PatchAndSend(payload);
        }
      } else {
        var payload := reassembly.TakeAll();
        if payload != "" {
          var ok := PatchAndSend(payload);
        }
      }
    }

    /** Leaving the loop: the tail, if any, is handed over and the result ignored. */
    method Leave()
      requires status == Running
      modifies this`segments, this`status, reassembly, target
      ensures Abstract() == Finish(Environment(), old(Abstract()))
    {
      var tail := reassembly.TakeAll();
      if tail != "" {
        var ok := PatchAndSend(tail);
      }
      status := Finished;
    }

    /** The endless loop, observed until it exits or reaches the state in which it repeats itself
        without reading or sending. */
    method Loop()
      modifies this, reassembly, target
      ensures Abstract() == Run(Environment(), old(Abstract()))
    {
      hide Step, Stuck;
      while status == Running && !Stuck(Abstract())
        invariant Run(Environment(), Abstract()) == Run(Environment(), old(Abstract()))
        decreases status == Running, |unread|, |reassembly.buffer|
      {
        Progress(Environment(), Abstract());
        Iterate();
      }
    }
  }
}
