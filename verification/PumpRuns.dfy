/** Whole runs of the pump: invariants of every reachable state, the exact condition under which it
    exits, and what the target then holds (src/transport/tcp_proxy_server.cpp). */
module PumpRuns {
  import opened Text
  import opened Framing
  import opened ProtocolDetector
  import opened SocketUtils
  import opened PumpModel

  // ---------- every reachable state ----------

  lemma StepKeepsBound(env: Env, s: State)
    requires s.status == Running && Bounded(s)
    ensures Bounded(Step(env, s))
  {
    hide Take, Detect, Deliver;
  }

  /** Once the kind is known it never changes, and once decided the detector is not asked again. */
  lemma StepKeepsLatch(env: Env, s: State)
    requires s.status == Running && s.decided
    ensures Step(env, s).decided && Step(env, s).kind == s.kind
  {
    hide Take, Detect, Deliver;
  }

  /** The latch is sound: whatever bytes follow, the detector would have given the same answer. */
  lemma LatchIsFinal(s: State, more: string)
    requires !s.decided && Decide(s).decided
    ensures Detect(s.buffer + more) == Decide(s).kind
  {
    hide Detect;
    if Detect(s.buffer) != Unknown {
      DetectStable(s.buffer, more);
    } else {
      NineBytesSettle(s.buffer, more);
    }
  }

  /** The loop is left only with an empty buffer, so the flush after the loop has nothing to send. */
  ghost predicate LeftClean(s: State) {
    s.status == Finished ==> s.buffer == "" && Incoming(s.unread) == ""
  }

  lemma StepLeavesClean(env: Env, s: State)
    requires s.status == Running
    ensures LeftClean(Step(env, s))
  {
    hide Take, Detect, Deliver;
  }

  /** Every state of every run: the buffer holds at most 8192 bytes, the stream is conserved, the
      target holds exactly the patched image, and the loop is left clean. */
  lemma {:induction false} EveryState(env: Env, s: State, n: nat)
    requires Bounded(s) && SentFaithfully(env, s) && LeftClean(s)
    ensures var t := StepN(env, s, n);
            Bounded(t) && Stream(t) == Stream(s) && SentFaithfully(env, t) && LeftClean(t)
    decreases n
  {
    hide Step, Bounded, Stream, SentFaithfully, LeftClean;
    if n > 0 && s.status == Running {
      StepKeepsBound(env, s);
      StepKeepsStream(env, s);
      StepLeavesClean(env, s);
      EveryState(env, Step(env, s), n - 1);
    }
  }

  lemma EveryStateFromInit(env: Env, first: string, events: seq<Event>, n: nat)
    requires |first| <= 8192
    ensures var t := StepN(env, Init(first, events), n);
            Bounded(t) && Stream(t) == first + Incoming(events) && SentFaithfully(env, t) && LeftClean(t)
  {
    var s := Init(first, events);
    assert Stream(s) == first + Incoming(events);
    EveryState(env, s, n);
  }

  /** The state in which this iteration looks at the protocol kind, when it gets that far. */
  function AtDispatch(s: State): Option<State> {
    if s.buffer != "" then Some(Decide(s))
    else if s.unread != [] && s.unread[0].Data? then Some(Decide(Load(s)))
    else None
  }

  /** The flush of line 323 is never taken: whenever an iteration of any run gets as far as that test,
      at most 8192 bytes are buffered. */
  lemma FlushIsNeverTaken(env: Env, first: string, events: seq<Event>, n: nat)
    requires |first| <= 8192 && StepN(env, Init(first, events), n).status == Running
    ensures var s := StepN(env, Init(first, events), n);
            match AtDispatch(s)
            case None => Step(env, s).segments == s.segments
            case Some(t) => Step(env, s) == Dispatch(env, t) && |t.buffer| <= 8192
  {
    hide StepN, Dispatch, Detect, Stream, SentFaithfully, LeftClean;
    EveryStateFromInit(env, first, events, n);
  }

  lemma RunFromInit(env: Env, first: string, events: seq<Event>)
    requires |first| <= 8192
    ensures var t := Run(env, Init(first, events));
            Bounded(t) && Stream(t) == first + Incoming(events) && SentFaithfully(env, t) && LeftClean(t)
  {
    hide StepN, Run, Stream, Bounded, SentFaithfully, LeftClean;
    var n := RunIsReached(env, Init(first, events));
    EveryStateFromInit(env, first, events, n);
  }

  lemma {:induction false} NothingPatched(patch: Patch, segments: seq<Segment>)
    requires forall kind, bytes :: patch(kind, bytes) == bytes
    ensures PatchedBytes(patch, segments) == Bytes(segments)
  {
    if segments != [] {
      NothingPatched(patch, segments[..|segments| - 1]);
    }
  }

  /** With patches that change nothing, a run that ends normally delivers the source byte for byte. */
  lemma VerbatimDelivery(env: Env, first: string, events: seq<Event>)
    requires |first| <= 8192
    requires forall kind, bytes :: env.patch(kind, bytes) == bytes
    requires Run(env, Init(first, events)).status == Finished
    ensures Run(env, Init(first, events)).accepted == first + Incoming(events)
  {
    hide Run, Bytes, PatchedBytes, Bounded;
    var t := Run(env, Init(first, events));
    RunFromInit(env, first, events);
    NothingPatched(env.patch, t.segments);
    assert Bytes(t.segments) + "" + "" == Bytes(t.segments);
  }

  // ---------- read by read ----------

  /** The non-empty reads in order, up to the end of the connection. */
  function Received(events: seq<Event>): seq<string> {
    if events == [] then []
    else
      match events[0]
      case Data(bytes) => [bytes] + Received(events[1..])
      case TimedOut => Received(events[1..])
      case Shutdown => []
      case Broken => []
  }

  function Reads(first: string, events: seq<Event>): seq<string> {
    (if first == "" then [] else [first]) + Received(events)
  }

  /** After this read the detector is not asked again. */
  predicate Decides(read: string) {
    Detect(read) != Unknown || |read| >= DECIDE_LIMIT
  }

  datatype Latch = Latch(decided: bool, kind: ProtocolKind)

  function Next(l: Latch, read: string): Latch {
    if l.decided then l
    else Latch(Decides(read), Detect(read))
  }

  /** The protocol kind under which the i-th read is handled. */
  function KindAt(inputs: seq<string>, i: nat, l: Latch): ProtocolKind
    requires i < |inputs|
    decreases i
  {
    if i == 0 then Next(l, inputs[0]).kind else KindAt(inputs[1..], i - 1, Next(l, inputs[0]))
  }

  /** Every read handled as HTTP is a whole number of messages. */
  predicate AllWhole(inputs: seq<string>, l: Latch) {
    inputs == [] ||
    (var next := Next(l, inputs[0]);
     (next.kind == Http ==> Drain(inputs[0]).rest == "") && AllWhole(inputs[1..], next))
  }

  lemma {:induction false} AllWholeIff(inputs: seq<string>, l: Latch)
    ensures AllWhole(inputs, l) <==>
              forall i: nat | i < |inputs| :: KindAt(inputs, i, l) == Http ==> Drain(inputs[i]).rest == ""
    decreases |inputs|
  {
    hide Drain, Next;
    if inputs != [] {
      var next := Next(l, inputs[0]);
      AllWholeIff(inputs[1..], next);
      if AllWhole(inputs, l) {
        forall i: nat | i < |inputs| && KindAt(inputs, i, l) == Http ensures Drain(inputs[i]).rest == "" {
          if i > 0 { assert KindAt(inputs[1..], i - 1, next) == Http; }
        }
      } else if next.kind == Http ==> Drain(inputs[0]).rest == "" {
        var i: nat :| i < |inputs[1..]| && KindAt(inputs[1..], i, next) == Http && Drain(inputs[1..][i]).rest != "";
        assert KindAt(inputs, i + 1, l) == Http && Drain(inputs[i + 1]).rest != "";
      } else {
        assert KindAt(inputs, 0, l) == Http;
      }
    }
  }

  function SegmentsOf(kind: ProtocolKind, messages: seq<string>): seq<Segment> {
    seq(|messages|, i requires 0 <= i < |messages| => Segment(kind, messages[i]))
  }

  /** What one read comes to: its messages when it is handled as HTTP, otherwise the read as it is. */
  function SegmentsOfRead(kind: ProtocolKind, read: string): seq<Segment> {
    if kind == Http then SegmentsOf(Http, Drain(read).messages) else [Segment(kind, read)]
  }

  /** What is handed over, read by read, up to and including the first HTTP read that is not whole. */
  function AllSegments(inputs: seq<string>, l: Latch): seq<Segment> {
    if inputs == [] then []
    else
      var next := Next(l, inputs[0]);
      SegmentsOfRead(next.kind, inputs[0])
      + (if next.kind == Http && Drain(inputs[0]).rest != "" then [] else AllSegments(inputs[1..], next))
  }

  /** The result of handing over one segment after the other: success, and the next `send` call. */
  datatype Sends = Sends(ok: bool, calls: nat)

  function SendEach(env: Env, segments: seq<Segment>, calls: nat): Sends {
    if segments == [] then Sends(true, calls)
    else
      var d := Deliver(env.patch(segments[0].kind, segments[0].bytes), env.oracle, calls);
      if d.ok then SendEach(env, segments[1..], d.calls) else Sends(false, d.calls)
  }

  lemma {:induction false} SendAppend(env: Env, a: seq<Segment>, b: seq<Segment>, calls: nat)
    ensures var first := SendEach(env, a, calls);
            SendEach(env, a + b, calls) == if first.ok then SendEach(env, b, first.calls) else first
    decreases |a|
  {
    hide Deliver;
    if a == [] {
      assert a + b == b;
    } else {
      assert (a + b)[1..] == a[1..] + b && (a + b)[0] == a[0];
      var d := Deliver(env.patch(a[0].kind, a[0].bytes), env.oracle, calls);
      if d.ok { SendAppend(env, a[1..], b, d.calls); }
    }
  }

  lemma SendOne(env: Env, segment: Segment, calls: nat)
    ensures var d := Deliver(env.patch(segment.kind, segment.bytes), env.oracle, calls);
            SendEach(env, [segment], calls) == Sends(d.ok, d.calls)
  {
    hide Deliver;
    assert [segment][1..] == [];
    assert forall n :: SendEach(env, [], n) == Sends(true, n);
  }

  lemma {:induction false} NoSendFails(env: Env, segments: seq<Segment>, calls: nat)
    requires NeverFails(env.oracle)
    ensures SendEach(env, segments, calls).ok
    decreases |segments|
  {
    hide Deliver;
    if segments != [] {
      var out := env.patch(segments[0].kind, segments[0].bytes);
      DeliverAll(out, env.oracle, calls);
      NoSendFails(env, segments[1..], Deliver(out, env.oracle, calls).calls);
    }
  }

  /** One HTTP read handled message by message, until a send fails. */
  lemma {:induction false} HttpReadDrains(env: Env, s: State) returns (t: State)
    requires s.status == Running && s.decided && s.kind == Http && |s.buffer| <= FLUSH_LIMIT
    ensures Run(env, t) == Run(env, s)
    ensures var segments := SegmentsOf(Http, Drain(s.buffer).messages);
            var sends := SendEach(env, segments, s.calls);
            && (!sends.ok ==> t.status == SendFailed)
            && (sends.ok ==> t == s.(buffer := Drain(s.buffer).rest, segments := s.segments + segments,
                                     calls := sends.calls, accepted := t.accepted)
                             && |t.buffer| <= |s.buffer|)
    decreases |s.buffer|
  {
    hide Drain, Take, Hand, Deliver, SendEach;
    if Take(s.buffer).Some? && Take(s.buffer).value.message != "" {
      var f := Take(s.buffer).value;
      DrainStep(s.buffer);
      HandOutcome(env, s.(buffer := f.rest), f.message);
      NotStuckOnMessage(s);
      var u := Step(env, s);
      assert u == Hand(env, s.(buffer := f.rest), f.message);
      RunStep(env, s);
      var more := SegmentsOf(Http, Drain(f.rest).messages);
      SendOne(env, Segment(Http, f.message), s.calls);
      SendAppend(env, [Segment(Http, f.message)], more, s.calls);
      assert SegmentsOf(Http, [f.message] + Drain(f.rest).messages) == [Segment(Http, f.message)] + more;
      if u.status == Running {
        t := HttpReadDrains(env, u);
        PlusAssociates(s.segments, [Segment(Http, f.message)], more);
      } else {
        t := u;
      }
    } else {
      DrainStop(s.buffer);
      t := s;
      NothingSent(env, s.calls);
      assert SegmentsOf(Http, []) == [];
      assert s.segments + [] == s.segments;
    }
  }

  lemma NothingSent(env: Env, calls: nat)
    ensures SendEach(env, [], calls) == Sends(true, calls)
  {
  }

  lemma NotStuckOnMessage(s: State)
    requires Take(s.buffer).Some? && Take(s.buffer).value.message != ""
    ensures !Stuck(s) && s.buffer != ""
  {
    hide Take;
  }

  lemma HandOutcome(env: Env, s: State, bytes: string)
    requires s.status == Running
    ensures var t := Hand(env, s, bytes);
            var d := Deliver(env.patch(s.kind, bytes), env.oracle, s.calls);
            t == s.(segments := s.segments + [Segment(s.kind, bytes)], calls := d.calls, accepted := t.accepted,
                    status := if d.ok then Running else SendFailed)
  {
    hide Deliver;
  }

  lemma RunStep(env: Env, s: State)
    requires s.status == Running && !Stuck(s)
    ensures Run(env, s) == Run(env, Step(env, s))
  {
    hide Step, Stuck;
  }

  function LatchOf(s: State): Latch {
    Latch(s.decided, s.kind)
  }

  /** One buffered read, HTTP or not, until a send fails. */
  lemma ReadIsHandled(env: Env, s: State) returns (t: State)
    requires s.status == Running && Bounded(s) && s.buffer != ""
    ensures Run(env, t).status == Run(env, s).status
    ensures !Stuck(s) ==> Run(env, t) == Run(env, s)
    ensures var kind := Next(LatchOf(s), s.buffer).kind;
            var sends := SendEach(env, SegmentsOfRead(kind, s.buffer), s.calls);
            && (!sends.ok ==> t.status == SendFailed)
            && (sends.ok ==>
                  t.status == Running && Bounded(t) && t.unread == s.unread && LatchOf(t) == Next(LatchOf(s), s.buffer)
                  && t.buffer == (if kind == Http then Drain(s.buffer).rest else "") && t.calls == sends.calls
                  && t.segments == s.segments + SegmentsOfRead(kind, s.buffer))
  {
    hide Drain, Take, Hand, Detect, SegmentsOf, SendEach, Deliver;
    var u := Decide(s);
    if u.kind == Http {
      t := HttpReadDrains(env, u);
      if Stuck(s) {
        assert Run(env, u).status == Running by { assert Stuck(u); }
      } else {
        assert !Stuck(u) && Step(env, u) == Step(env, s);
        RunStep(env, s);
        RunStep(env, u);
      }
    } else {
      HandOutcome(env, u.(buffer := ""), s.buffer);
      SendOne(env, Segment(u.kind, s.buffer), s.calls);
      t := Step(env, s);
      RunStep(env, s);
    }
  }

  lemma LeftoverIsStuck(s: State, read: string)
    requires s.status == Running && Bounded(s) && s.kind == Http
    requires s.buffer == Drain(read).rest && s.buffer != ""
    ensures Stuck(s)
  {
    hide Drain, Take;
  }

  lemma StuckLeavesRest(s: State)
    requires Stuck(s)
    ensures Next(LatchOf(s), s.buffer).kind == Http && Drain(s.buffer).rest == s.buffer != ""
  {
    hide Drain, Take, Detect;
    DrainStop(s.buffer);
  }

  /** How a run over these reads ends: with a failed send, at the end of the connection, or never. */
  function StatusAfter(env: Env, inputs: seq<string>, l: Latch, calls: nat): Status {
    if !SendEach(env, AllSegments(inputs, l), calls).ok then SendFailed
    else if AllWhole(inputs, l) then Finished
    else Running
  }

  ghost predicate RunsOver(env: Env, s: State, inputs: seq<string>) {
    && Run(env, s).status == StatusAfter(env, inputs, LatchOf(s), s.calls)
    && (Run(env, s).status == Finished ==> Run(env, s).segments == s.segments + AllSegments(inputs, LatchOf(s)))
  }

  /** Every run is determined by its reads: it fails with the first send that fails, spins on the first
      HTTP read that is not whole, or hands over the reads one after the other. */
  lemma RunReadByRead(env: Env, s: State)
    requires KeepsEmpty(env) && s.status == Running && Bounded(s)
    ensures RunsOver(env, s, Reads(s.buffer, s.unread))
  {
    hide Run, RunsOver;
    if s.buffer != "" {
      RunBuffered(env, s);
    } else {
      assert Reads(s.buffer, s.unread) == Received(s.unread);
      RunEmpty(env, s);
    }
  }

  lemma {:induction false} RunBuffered(env: Env, s: State)
    requires KeepsEmpty(env) && s.status == Running && Bounded(s) && s.buffer != ""
    ensures RunsOver(env, s, Reads(s.buffer, s.unread))
    decreases |s.unread|, |s.buffer|, 0
  {
    hide Drain, SegmentsOfRead, Step, Next, Stuck, Bounded, SendEach;
    var all := Reads(s.buffer, s.unread);
    assert all[1..] == Received(s.unread) && all[0] == s.buffer;
    var handled := SegmentsOfRead(Next(LatchOf(s), s.buffer).kind, s.buffer);
    var t := ReadIsHandled(env, s);
    SendAppend(env, handled, AllSegments(all[1..], Next(LatchOf(s), s.buffer)), s.calls);
    assert handled + [] == handled;
    if !SendEach(env, handled, s.calls).ok {
      FailedIsNotStuck(env, s);
    } else if Stuck(s) {
      StuckLeavesRest(s);
    } else if t.buffer == "" {
      RunEmpty(env, t);
      PlusAssociates(s.segments, handled, AllSegments(all[1..], LatchOf(t)));
    } else {
      LeftoverIsStuck(t, s.buffer);
    }
  }

  lemma FailedIsNotStuck(env: Env, s: State)
    requires Run(env, s).status == SendFailed
    ensures !Stuck(s)
  {
  }

  lemma PlusAssociates(a: seq<Segment>, b: seq<Segment>, c: seq<Segment>)
    ensures a + b + c == a + (b + c)
  {
  }

  lemma {:induction false} RunEmpty(env: Env, s: State)
    requires KeepsEmpty(env) && s.status == Running && Bounded(s) && s.buffer == ""
    ensures RunsOver(env, s, Received(s.unread))
    decreases |s.unread|, |s.buffer|, 1
  {
    hide Drain, AllWhole, AllSegments, Decide, Dispatch, SendEach;
    EmptyIsNotStuck(s);
    if s.unread == [] || s.unread[0].Shutdown? || s.unread[0].Broken? {
      NothingRead(LatchOf(s));
      NothingSent(env, s.calls);
      assert s.segments + [] == s.segments;
    } else if s.unread[0].TimedOut? {
      RunStep(env, s);
      RunEmpty(env, Step(env, s));
    } else {
      var loaded := s.(buffer := s.unread[0].bytes, unread := s.unread[1..]);
      RunBuffered(env, loaded);
      LoadThenRun(env, s, loaded);
    }
  }

  lemma EmptyIsNotStuck(s: State)
    requires s.buffer == ""
    ensures !Stuck(s)
  {
  }

  lemma NothingRead(l: Latch)
    ensures AllWhole([], l) && AllSegments([], l) == []
  {
  }

  /** Reading and handling in one iteration is reading first and handling next. */
  lemma LoadThenRun(env: Env, s: State, loaded: State)
    requires KeepsEmpty(env) && s.status == Running && s.buffer == ""
    requires s.unread != [] && s.unread[0].Data?
    requires loaded == s.(buffer := s.unread[0].bytes, unread := s.unread[1..])
    ensures Run(env, s).status == Run(env, loaded).status
    ensures Run(env, loaded).status != Running ==> Run(env, s) == Run(env, loaded)
  {
    hide Stuck, Decide, Dispatch;
    EmptyIsNotStuck(s);
    RunStep(env, s);
    assert Step(env, s) == Step(env, loaded);
    if Stuck(loaded) {
      StuckStays(env, loaded);
      StillRunning(Step(env, loaded));
    } else {
      RunStep(env, loaded);
    }
  }

  // ---------- main results ----------

  const START: Latch := Latch(false, Unknown)

  /** Exactly when the endless loop exits, whatever the socket does: after finitely many iterations if and
      only if a send fails, or every read that is handled as HTTP is a whole number of messages. Only
      sends of what comes before the end of the first read that is not whole can fail: such a read leaves
      the loop spinning, because `recv` waits for an empty buffer. */
  lemma ExitsIff(env: Env, first: string, events: seq<Event>)
    requires KeepsEmpty(env) && |first| <= 8192
    ensures (exists n :: StepN(env, Init(first, events), n).status != Running) <==>
              var inputs := Reads(first, events);
              || !SendEach(env, AllSegments(inputs, START), 0).ok
              || forall i: nat | i < |inputs| :: KindAt(inputs, i, START) == Http ==> Drain(inputs[i]).rest == ""
  {
    hide StepN, Run, AllWhole, KindAt, Drain, Reads, AllSegments, SendEach;
    var s := Init(first, events);
    ExitsIffNotStuck(env, s);
    RunReadByRead(env, s);
    AllWholeIff(Reads(first, events), START);
  }

  /** When no send fails, whole reads are all it takes. */
  lemma ExitsIffReadsAreWhole(env: Env, first: string, events: seq<Event>)
    requires NeverFails(env.oracle) && KeepsEmpty(env) && |first| <= 8192
    ensures (exists n :: StepN(env, Init(first, events), n).status != Running) <==>
              var inputs := Reads(first, events);
              forall i: nat | i < |inputs| :: KindAt(inputs, i, START) == Http ==> Drain(inputs[i]).rest == ""
  {
    hide StepN, KindAt, Drain, Reads, AllSegments, SendEach;
    ExitsIff(env, first, events);
    NoSendFails(env, AllSegments(Reads(first, events), START), 0);
  }

  const HALF_A_HEAD: string := "GET / HTTP/1.1\r\n"

  /** A read on which the pump spins, whatever follows it: no later byte is read, nothing is sent. */
  lemma HalfAHeadSpins(env: Env, events: seq<Event>, n: nat)
    requires KeepsEmpty(env)
    ensures var t := StepN(env, Init(HALF_A_HEAD, events), n);
            t.status == Running && Stuck(t) && t.accepted == ""
  {
    hide StepN, Find, Stuck;
    assert Stuck(Init(HALF_A_HEAD, events)) by { HalfAHeadIsStuck(events); }
    StuckForever(env, Init(HALF_A_HEAD, events), n);
    StillRunning(StepN(env, Init(HALF_A_HEAD, events), n));
  }

  lemma HalfAHeadIsStuck(events: seq<Event>)
    ensures Stuck(Init(HALF_A_HEAD, events))
  {
    hide Find, At;
    assert HTTP_PREFIXES[0] <= HALF_A_HEAD;
    forall j: nat | j < |HALF_A_HEAD| + 1 ensures !At(HALF_A_HEAD, HEAD_END, j) {
      if At(HALF_A_HEAD, HEAD_END, j) {
        AtByte(HALF_A_HEAD, HEAD_END, j, 0);
        AtSlice(HALF_A_HEAD, HEAD_END, j);
      }
    }
    FindIsNone(HALF_A_HEAD, HEAD_END, 0);
  }

  /** What a run that ends normally has handed over: HTTP reads message by message, other reads as they
      came. It ends so exactly when the HTTP reads are whole and no send fails. */
  lemma HandedOverReadByRead(env: Env, first: string, events: seq<Event>)
    requires KeepsEmpty(env) && |first| <= 8192
    ensures var t, inputs := Run(env, Init(first, events)), Reads(first, events);
            && (t.status == Finished <==> AllWhole(inputs, START) && SendEach(env, AllSegments(inputs, START), 0).ok)
            && (t.status == Finished ==>
                  t.segments == AllSegments(inputs, START)
                  && t.accepted == PatchedBytes(env.patch, AllSegments(inputs, START)))
  {
    hide Run, AllWhole, AllSegments, Reads, Stream, SendEach;
    var s := Init(first, events);
    RunReadByRead(env, s);
    RunFromInit(env, first, events);
    assert [] + AllSegments(Reads(first, events), START) == AllSegments(Reads(first, events), START);
  }

  function Outputs(patch: Patch, segments: seq<Segment>): seq<string> {
    seq(|segments|, i requires 0 <= i < |segments| => patch(segments[i].kind, segments[i].bytes))
  }

  lemma {:induction false} OutputsFlatten(patch: Patch, segments: seq<Segment>)
    ensures Flatten(Outputs(patch, segments)) == PatchedBytes(patch, segments)
  {
    if segments == [] {
      assert Outputs(patch, segments) == [];
    } else {
      var front, last := segments[..|segments| - 1], segments[|segments| - 1];
      OutputsFlatten(patch, front);
      assert Outputs(patch, segments) == Outputs(patch, front) + [patch(last.kind, last.bytes)];
      FlattenAppend(Outputs(patch, front), [patch(last.kind, last.bytes)]);
      FlattenOne(patch(last.kind, last.bytes));
    }
  }

  lemma FlattenOne(part: string)
    ensures Flatten([part]) == part
  {
    assert [part][1..] == [];
    assert Flatten([]) == "";
    assert part + "" == part;
  }

  /** Where the pump meets patching and framing: if every patched message frames itself, a peer that
      reassembles what the target received takes exactly the patched messages, in any chunks. */
  lemma TargetReframes(env: Env, first: string, events: seq<Event>, chunks: seq<string>)
    requires |first| <= 8192
    requires Run(env, Init(first, events)).status == Finished
    requires forall m | m in Outputs(env.patch, Run(env, Init(first, events)).segments) :: SelfFramed(m)
    requires Flatten(chunks) == Run(env, Init(first, events)).accepted
    ensures Feed("", chunks) == Drained(Outputs(env.patch, Run(env, Init(first, events)).segments), "")
  {
    hide Run, Outputs, SelfFramed, Stream, Bounded, Flatten;
    var t := Run(env, Init(first, events));
    RunFromInit(env, first, events);
    OutputsFlatten(env.patch, t.segments);
    PipelinedInAnyChunks(Outputs(env.patch, t.segments), chunks);
  }

  /** The same at any moment of any run, also after a failed send: what the peer has taken so far is a
      prefix of the patched messages. */
  lemma TargetTakesPrefix(env: Env, first: string, events: seq<Event>, n: nat, chunks: seq<string>)
    requires |first| <= 8192
    requires forall m | m in Outputs(env.patch, StepN(env, Init(first, events), n).segments) :: SelfFramed(m)
    requires Flatten(chunks) == StepN(env, Init(first, events), n).accepted
    ensures Feed("", chunks).messages <= Outputs(env.patch, StepN(env, Init(first, events), n).segments)
  {
    hide StepN, Outputs, SelfFramed, Stream, Bounded, Flatten, LeftClean, Drain;
    var t := StepN(env, Init(first, events), n);
    EveryStateFromInit(env, first, events, n);
    OutputsFlatten(env.patch, t.segments);
    PipelinedMessages(Outputs(env.patch, t.segments));
    ChunkingIndependence(chunks);
    var all := PatchedBytes(env.patch, t.segments);
    DrainAppend(t.accepted, all[|t.accepted|..]);
    assert t.accepted + all[|t.accepted|..] == all;
  }

  // ---------- detection over a whole stream ----------

  lemma {:induction false} LatchedKind(inputs: seq<string>, i: nat, l: Latch)
    requires l.decided && i < |inputs|
    ensures KindAt(inputs, i, l) == l.kind
    decreases i
  {
    if i > 0 { LatchedKind(inputs[1..], i - 1, l); }
  }

  lemma KnownFirstRead(inputs: seq<string>, i: nat)
    requires i < |inputs| && Detect(inputs[0]) != Unknown
    ensures KindAt(inputs, i, START) == Detect(inputs[0])
  {
    hide Detect;
    if i > 0 { LatchedKind(inputs[1..], i - 1, Next(START, inputs[0])); }
  }

  lemma DecidedForGood(first: string, more: string)
    requires Decides(first)
    ensures Detect(first + more) == Detect(first)
  {
    hide Detect;
    if Detect(first) != Unknown { DetectStable(first, more); } else { NineBytesSettle(first, more); }
  }

  /** The detector is asked about each read alone. A first read that decides nothing can be followed by
      one that is handled as HTTP although the stream does not begin with a method. */
  lemma LateMethodIsTaken(first: string)
    requires first != "" && Detect(first) == Unknown && |first| < 32
    ensures KindAt([first, "GET "], 1, START) == Http && Detect(first + "GET ") != Http
  {
    AppendedGetIsNotHttp(first);
    assert [first, "GET "][1..] == ["GET "];
  }

  /** Exactly when the second read is handled under the kind of the stream: when the first one decides. */
  lemma SecondReadIff(first: string)
    requires first != ""
    ensures (forall more | more != "" :: KindAt([first, more], 1, START) == Detect(first + more))
            <==> Detect(first) != Unknown || |first| >= 32
  {
    hide Detect;
    if Decides(first) {
      forall more | more != "" ensures KindAt([first, more], 1, START) == Detect(first + more) {
        DecidedForGood(first, more);
        assert [first, more][1..] == [more];
        LatchedKind([more], 0, Next(START, first));
      }
    } else {
      LateMethodIsTaken(first);
    }
  }

  /** Every read is handled under the kind of all the bytes received so far. */
  ghost predicate KindOfStream(first: string, more: seq<string>) {
    forall i: nat | i <= |more| :: KindAt([first] + more, i, START) == Detect(first + Flatten(more[..i]))
  }

  /** The same for any number of reads, which hold at least one byte each. */
  lemma EveryReadIff(first: string)
    requires first != ""
    ensures (forall more | "" !in more :: KindOfStream(first, more)) <==> Detect(first) != Unknown || |first| >= 32
  {
    hide Detect;
    if Decides(first) {
      forall more | "" !in more ensures KindOfStream(first, more) {
        DecidedStream(first, more);
      }
    } else {
      LateMethodIsTaken(first);
      var more := ["GET "];
      FlattenOne("GET ");
      assert [first] + more == [first, "GET "] && more[..1] == more;
      assert KindAt([first] + more, 1, START) != Detect(first + Flatten(more[..1]));
      assert !KindOfStream(first, more);
    }
  }

  lemma DecidedStream(first: string, more: seq<string>)
    requires Decides(first)
    ensures KindOfStream(first, more)
  {
    hide Detect, Decides;
    var inputs := [first] + more;
    forall i: nat | i <= |more| ensures KindAt(inputs, i, START) == Detect(first + Flatten(more[..i])) {
      DecidedForGood(first, Flatten(more[..i]));
      if i > 0 { LatchedKind(inputs[1..], i - 1, Next(START, first)); }
    }
  }

  /** Detection looks at one read at a time: a request whose method is split over two reads is not
      recognised by either of them. */
  lemma SplitMethodIsMissed()
    ensures Detect("GE" + "T / HTTP/1.1\r\n\r\n") == Http
    ensures var inputs := ["GE", "T / HTTP/1.1\r\n\r\n"];
            KindAt(inputs, 0, START) == Unknown && KindAt(inputs, 1, START) == Unknown
  {
    var a, b := "GE", "T / HTTP/1.1\r\n\r\n";
    assert HTTP_PREFIXES[0] <= a + b;
    forall i | 0 <= i < |HTTP_PREFIXES| ensures !(HTTP_PREFIXES[i] <= a) && !(HTTP_PREFIXES[i] <= b) {
      assert |HTTP_PREFIXES[i]| >= 4 && HTTP_PREFIXES[i][1] != ' ';
    }
    assert [a, b][1..] == [b];
  }
}
