/** One direction of a proxied connection as a state machine: the `pump` lambda
    (src/transport/tcp_proxy_server.cpp). `recv` is a finite list of events, `send` an oracle, and
    patching an arbitrary function of the protocol kind and the bytes. */
module PumpModel {
  import opened Text
  import opened Framing
  import opened ProtocolDetector
  import opened SocketUtils

  const FLUSH_LIMIT: nat := 8192
  const DECIDE_LIMIT: nat := 32

  /** What one `recv` into the 4096-byte buffer returns when it returns bytes. */
  type Chunk = s: string | 1 <= |s| <= 4096 witness "x"

  datatype Event = Data(bytes: Chunk) | TimedOut | Shutdown | Broken

  datatype Status = Running | Finished | SendFailed

  /** Bytes handed to `patch_and_send`, with the protocol kind at that moment. */
  datatype Segment = Segment(kind: ProtocolKind, bytes: string)

  type Patch = (ProtocolKind, string) -> string

  datatype Env = Env(patch: Patch, oracle: SendOracle)

  datatype State = State(
    buffer: string, decided: bool, kind: ProtocolKind, unread: seq<Event>,
    segments: seq<Segment>, accepted: string, calls: nat, status: Status)

  function Init(first: string, events: seq<Event>): State {
    State(first, false, Unknown, events, [], "", 0, Running)
  }

  // ---------- one iteration ----------

  /** `patch_and_send`. */
  function Hand(env: Env, s: State, bytes: string): State {
    var out := env.patch(s.kind, bytes);
    var d := Deliver(out, env.oracle, s.calls);
    s.(segments := s.segments + [Segment(s.kind, bytes)], accepted := s.accepted + out[..d.sent],
       calls := d.calls, status := if d.ok then s.status else SendFailed)
  }

  function Decide(s: State): State {
    if s.decided then s
    else
      var kind := Detect(s.buffer);
      s.(kind := kind, decided := kind != Unknown || |s.buffer| >= DECIDE_LIMIT)
  }

  /** What happens to the buffered bytes once the kind has been looked at. */
  function Dispatch(env: Env, s: State): State {
    if s.kind == Http then
      match Take(s.buffer)
      case Some(f) => Hand(env, s.(buffer := f.rest), f.message)
      case None =>
        if |s.buffer| > FLUSH_LIMIT then Hand(env, s.(buffer := ""), s.buffer) else s
    else if s.buffer == "" then s
    else Hand(env, s.(buffer := ""), s.buffer)
  }

  /** Leaving the loop: whatever is still buffered is handed over. */
  function Finish(env: Env, s: State): State {
    (if s.buffer == "" then s else Hand(env, s.(buffer := ""), s.buffer)).(status := Finished)
  }

  /** `recv` put its bytes into the empty buffer. */
  function Load(s: State): State
    requires s.unread != [] && s.unread[0].Data?
  {
    s.(buffer := s.unread[0].bytes, unread := s.unread[1..])
  }

  /** One iteration of the endless loop. `recv` is called only when the buffer is empty. */
  function Step(env: Env, s: State): State
    requires s.status == Running
  {
    if s.buffer != "" then Dispatch(env, Decide(s))
    else if s.unread == [] then Finish(env, s)
    else
      match s.unread[0]
      case Shutdown => Finish(env, s)
      case Broken => Finish(env, s)
      case TimedOut => s.(unread := s.unread[1..])
      case Data(_) => Dispatch(env, Decide(Load(s)))
  }

  function StepN(env: Env, s: State, n: nat): State
    decreases n
  {
    if n == 0 || s.status != Running then s else StepN(env, Step(env, s), n - 1)
  }

  // ---------- progress ----------

  /** The loop body can do nothing for this buffer: it is HTTP, and either no message is complete or
      the front message has length zero. Because the buffer is not empty, `recv` is not called. */
  predicate Stuck(s: State) {
    && s.status == Running
    && s.buffer != ""
    && Decide(s).kind == Http
    && ((Take(s.buffer).None? && |s.buffer| <= FLUSH_LIMIT) || ZeroFrame(s.buffer))
  }

  /** Every iteration that does not exit makes progress, unless the loop is stuck. */
  lemma Progress(env: Env, s: State)
    requires s.status == Running && !Stuck(s)
    ensures var t := Step(env, s);
            t.status != Running
            || |t.unread| < |s.unread|
            || (t.unread == s.unread && |t.buffer| < |s.buffer|)
  {
    hide Take, Detect, Deliver;
  }

  /** Patching nothing gives nothing; `TransportPipelineEmpty` shows it for the real pipeline. */
  ghost predicate KeepsEmpty(env: Env) {
    forall kind :: env.patch(kind, "") == ""
  }

  /** The stuck state repeats: no byte is read, sent or dropped by the next iteration. */
  lemma StuckStays(env: Env, s: State)
    requires Stuck(s) && KeepsEmpty(env)
    ensures var t := Step(env, s);
            && Stuck(t)
            && t.buffer == s.buffer && t.unread == s.unread && t.accepted == s.accepted && t.calls == s.calls
            && Decide(t) == t && t.kind == Http
            && (Take(s.buffer).None? ==> t == Decide(s))
  {
    hide Take, Detect;
    if ZeroFrame(s.buffer) {
      var f := Take(s.buffer).value;
      assert f.message + f.rest == f.rest;
      assert s.accepted + "" == s.accepted;
    }
  }

  /** Iterate until the loop exits or is stuck. */
  function Run(env: Env, s: State): (r: State)
    ensures r.status != Running || Stuck(r)
    decreases |s.unread|, |s.buffer|
  {
    if s.status != Running then s
    else if Stuck(s) then s
    else
      Progress(env, s);
      if Step(env, s).status != Running then Step(env, s) else Run(env, Step(env, s))
  }

  lemma {:induction false} StuckForever(env: Env, s: State, n: nat)
    requires Stuck(s) && KeepsEmpty(env)
    ensures Stuck(StepN(env, s, n))
    ensures StepN(env, s, n).accepted == s.accepted
    decreases n
  {
    hide Step, Stuck, Decide;
    if n > 0 {
      StillRunning(s);
      StuckStays(env, s);
      StuckForever(env, Step(env, s), n - 1);
    }
  }

  lemma StillRunning(s: State)
    requires Stuck(s)
    ensures s.status == Running
  {
  }

  /** `Run` is reached by finitely many iterations. */
  lemma {:induction false} RunIsReached(env: Env, s: State) returns (n: nat)
    ensures StepN(env, s, n) == Run(env, s)
    decreases |s.unread|, |s.buffer|
  {
    hide Step, Stuck;
    if s.status != Running || Stuck(s) {
      n := 0;
    } else {
      Progress(env, s);
      if Step(env, s).status != Running {
        n := 1;
        assert StepN(env, Step(env, s), 0) == Step(env, s);
      } else {
        var m := RunIsReached(env, Step(env, s));
        n := m + 1;
      }
    }
  }

  lemma {:induction false} StepNAdd(env: Env, s: State, m: nat, n: nat)
    ensures StepN(env, s, m + n) == StepN(env, StepN(env, s, m), n)
    decreases m
  {
    hide Step;
    if m > 0 && s.status == Running {
      StepNAdd(env, Step(env, s), m - 1, n);
    }
  }

  lemma {:induction false} ExitStays(env: Env, s: State, n: nat)
    requires s.status != Running
    ensures StepN(env, s, n) == s
  {
  }

  /** The loop exits after finitely many iterations exactly when it does not get stuck. */
  lemma ExitsIffNotStuck(env: Env, s: State)
    requires KeepsEmpty(env)
    ensures (exists n :: StepN(env, s, n).status != Running) <==> Run(env, s).status != Running
  {
    hide Step, Stuck;
    var m := RunIsReached(env, s);
    if Run(env, s).status == Running {
      forall n ensures StepN(env, s, n).status == Running {
        if n >= m {
          StepNAdd(env, s, m, n - m);
          StuckForever(env, Run(env, s), n - m);
          StillRunning(StepN(env, s, n));
        } else {
          var k: nat := m - n;
          StepNAdd(env, s, n, k);
          if StepN(env, s, n).status != Running { ExitStays(env, StepN(env, s, n), k); }
        }
      }
    }
  }

  // ---------- what every step keeps ----------

  function Bytes(segments: seq<Segment>): string {
    if segments == [] then "" else Bytes(segments[..|segments| - 1]) + segments[|segments| - 1].bytes
  }

  function PatchedBytes(patch: Patch, segments: seq<Segment>): string {
    if segments == [] then ""
    else
      var last := segments[|segments| - 1];
      PatchedBytes(patch, segments[..|segments| - 1]) + patch(last.kind, last.bytes)
  }

  /** The bytes `recv` still has to deliver. */
  function Incoming(events: seq<Event>): string {
    if events == [] then ""
    else
      match events[0]
      case Data(bytes) => bytes + Incoming(events[1..])
      case TimedOut => Incoming(events[1..])
      case Shutdown => ""
      case Broken => ""
  }

  /** Handed over, buffered and still to come: the whole source stream. */
  function Stream(s: State): string {
    Bytes(s.segments) + s.buffer + Incoming(s.unread)
  }

  /** What the target has received. */
  ghost predicate SentFaithfully(env: Env, s: State) {
    var all := PatchedBytes(env.patch, s.segments);
    if s.status == SendFailed then s.accepted <= all else s.accepted == all
  }

  /** The buffer bound and the latch. */
  predicate Bounded(s: State) {
    && |s.buffer| <= FLUSH_LIMIT
    && (s.kind != Unknown ==> s.decided)
  }

  lemma HandKeeps(env: Env, s: State, bytes: string)
    requires s.status != SendFailed && SentFaithfully(env, s)
    ensures var t := Hand(env, s, bytes);
            SentFaithfully(env, t) && Bytes(t.segments) == Bytes(s.segments) + bytes
  {
    hide Deliver;
    var segment := Segment(s.kind, bytes);
    assert (s.segments + [segment])[..|s.segments|] == s.segments;
    var out := env.patch(s.kind, bytes);
    var d := Deliver(out, env.oracle, s.calls);
    assert d.ok ==> out[..d.sent] == out;
    PrefixOfConcat(PatchedBytes(env.patch, s.segments), out, d.sent);
  }

  lemma PrefixOfConcat(a: string, b: string, n: nat)
    requires n <= |b|
    ensures a + b[..n] <= a + b
  {
    assert (a + b)[..|a| + n] == a + b[..n];
  }

  lemma DispatchKeeps(env: Env, s: State)
    requires s.status == Running && SentFaithfully(env, s)
    ensures var t := Dispatch(env, s);
            SentFaithfully(env, t) && Bytes(t.segments) + t.buffer == Bytes(s.segments) + s.buffer
            && t.unread == s.unread && t.kind == s.kind && t.decided == s.decided && |t.buffer| <= |s.buffer|
  {
    hide Take, Hand, SentFaithfully, Bytes;
    HandFrame(env, s.(buffer := ""), s.buffer);
    SentIgnoresBuffer(env, s, "");
    HandKeeps(env, s.(buffer := ""), s.buffer);
    assert Bytes(s.segments) + s.buffer + "" == Bytes(s.segments) + s.buffer;
    if Take(s.buffer).Some? {
      var f := Take(s.buffer).value;
      HandFrame(env, s.(buffer := f.rest), f.message);
      SentIgnoresBuffer(env, s, f.rest);
      HandKeeps(env, s.(buffer := f.rest), f.message);
      assert Bytes(s.segments) + f.message + f.rest == Bytes(s.segments) + (f.message + f.rest);
    }
  }

  lemma HandFrame(env: Env, s: State, bytes: string)
    ensures var t := Hand(env, s, bytes);
            t.buffer == s.buffer && t.unread == s.unread && t.kind == s.kind && t.decided == s.decided
  {
    hide Deliver;
  }

  lemma SentIgnoresBuffer(env: Env, s: State, buffer: string)
    requires SentFaithfully(env, s)
    ensures SentFaithfully(env, s.(buffer := buffer))
  {
  }

  /** Stream conservation: no step loses, invents or reorders a byte, and what the target received is
      the patched image of what was handed over. */
  lemma StepKeepsStream(env: Env, s: State)
    requires s.status == Running && SentFaithfully(env, s)
    ensures Stream(Step(env, s)) == Stream(s)
    ensures SentFaithfully(env, Step(env, s))
  {
    hide Dispatch, Hand, Bytes, PatchedBytes, Detect;
    var t := Decide(if s.buffer != "" || s.unread == [] || !s.unread[0].Data? then s
                    else s.(buffer := s.unread[0].bytes, unread := s.unread[1..]));
    DispatchKeeps(env, t);
    if s.buffer == "" && s.unread != [] && s.unread[0].Data? {
      assert Bytes(s.segments) + "" + Incoming(s.unread)
          == Bytes(s.segments) + s.unread[0].bytes + Incoming(s.unread[1..]);
    }
  }
}
