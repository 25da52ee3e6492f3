/** The table that remembers original destinations of redirected flows (src/capture/flow_table.cpp).
    The clock is an input of every operation. */
module FlowTable {
  import opened Text

  const TTL_MILLIS: int := 120000
  const PRUNE_ABOVE: nat := 4096

  datatype FlowKey = FlowKey(protocol: nat, sourceIp: string, sourcePort: nat)
  datatype Destination = Destination(host: string, port: nat)
  datatype FlowEntry = FlowEntry(destination: Destination, touchedMillis: int)

  type Flows = map<FlowKey, FlowEntry>

  predicate Live(entry: FlowEntry, now: int) {
    now - entry.touchedMillis <= TTL_MILLIS
  }

  function Pruned(t: Flows, now: int): Flows {
    map key | key in t && Live(t[key], now) :: t[key]
  }

  /** When a table is pruned after an insertion. */
  type Policy = Flows -> bool

  function TooLarge(t: Flows): bool {
    |t| > PRUNE_ABOVE
  }

  function Never(t: Flows): bool {
    false
  }

  function Remembered(t: Flows, key: FlowKey, destination: Destination, now: int, policy: Policy): Flows {
    var u := t[key := FlowEntry(destination, now)];
    if policy(u) then Pruned(u, now) else u
  }

  function Reply(t: Flows, key: FlowKey, now: int): Option<Destination> {
    if key in t && Live(t[key], now) then Some(t[key].destination) else None
  }

  /** A lookup refreshes a live entry and drops an expired one. */
  function LookedUp(t: Flows, key: FlowKey, now: int): Flows {
    if key !in t then t
    else if Live(t[key], now) then t[key := t[key].(touchedMillis := now)]
    else t - {key}
  }

  class Table {
    var table: Flows

    constructor ()
      ensures table == map[]
    {
      table := map[];
    }

    /** `remember_mapping`. The mapping just remembered survives its own prune, and when the table was
        pruned every entry that remains is live. */
    method RememberMapping(now: int, protocol: nat, sourceIp: string, sourcePort: nat,
                           destinationHost: string, destinationPort: nat)
      modifies this
      ensures var key := FlowKey(protocol, sourceIp, sourcePort);
              var destination := Destination(destinationHost, destinationPort);
              && table == Remembered(old(table), key, destination, now, TooLarge)
              && key in table && table[key] == FlowEntry(destination, now)
              && (|old(table)[key := FlowEntry(destination, now)]| > PRUNE_ABOVE ==>
                    forall k | k in table :: Live(table[k], now))
    {
      var destination := Destination(destinationHost, destinationPort);
      table := table[FlowKey(protocol, sourceIp, sourcePort) := FlowEntry(destination, now)];
      if |table| > PRUNE_ABOVE {
        PruneExpired(now);
      }
    }

    /** `try_get_upstream`. */
    method TryGetUpstream(now: int, protocol: nat, sourceIp: string, sourcePort: nat) returns (r: Option<Destination>)
      modifies this
      ensures var key := FlowKey(protocol, sourceIp, sourcePort);
              r == Reply(old(table), key, now) && table == LookedUp(old(table), key, now)
    {
      var key := FlowKey(protocol, sourceIp, sourcePort);
      if key !in table {
        return None;
      }
      if now - table[key].touchedMillis > TTL_MILLIS {
        table := table - {key};
        return None;
      }
      table := table[key := table[key].(touchedMillis := now)];
      return Some(table[key].destination);
    }

    /** `prune_expired_locked`: one pass over the table in an arbitrary order, erasing on the way. */
    method PruneExpired(now: int)
      modifies this
      ensures table == Pruned(old(table), now)
    {
      var left := table.Keys;
      while left != {}
        invariant left <= table.Keys <= old(table).Keys
        invariant forall key | key in table :: table[key] == old(table)[key]
        invariant forall key | key in table && key !in left :: Live(table[key], now)
        invariant forall key | key in old(table) && key !in table :: !Live(old(table)[key], now)
        decreases left
      {
        var key :| key in left;
        if now - table[key].touchedMillis > TTL_MILLIS {
          table := table - {key};
        }
        left := left - {key};
      }
    }
  }

  // ---------- histories ----------

  datatype Op = Remember(key: FlowKey, destination: Destination, at: int) | Lookup(key: FlowKey, at: int)

  function Apply(t: Flows, op: Op, policy: Policy): Flows {
    match op
    case Remember(key, destination, at) => Remembered(t, key, destination, at, policy)
    case Lookup(key, at) => LookedUp(t, key, at)
  }

  function TableAfter(history: seq<Op>, policy: Policy): Flows {
    if history == [] then map[]
    else Apply(TableAfter(history[..|history| - 1], policy), history[|history| - 1], policy)
  }

  /** Times do not go back, in the order in which the operations take the lock. */
  ghost predicate Ordered(history: seq<Op>) {
    forall i, j | 0 <= i < j < |history| :: history[i].at <= history[j].at
  }

  // ---------- what a history means for one key ----------

  /** Times of the operations on `key` since it was last remembered, beginning with that one. */
  function Touches(history: seq<Op>, key: FlowKey): seq<int> {
    if history == [] then []
    else
      var front, op := history[..|history| - 1], history[|history| - 1];
      if op.key != key then Touches(front, key)
      else if op.Remember? then [op.at]
      else if Touches(front, key) == [] then []
      else Touches(front, key) + [op.at]
  }

  function LastDestination(history: seq<Op>, key: FlowKey): Destination {
    if history == [] then Destination("", 0)
    else
      var op := history[|history| - 1];
      if op.key == key && op.Remember? then op.destination
      else LastDestination(history[..|history| - 1], key)
  }

  predicate NoLongGap(times: seq<int>) {
    forall i | 0 <= i < |times| - 1 :: times[i + 1] - times[i] <= TTL_MILLIS
  }

  /** The reply as sliding expiry promises it: the last remembered destination, exactly when no gap
      between successive touches up to now exceeds the time to live. */
  function Promised(history: seq<Op>, key: FlowKey, now: int): Option<Destination> {
    if Touches(history, key) != [] && NoLongGap(Touches(history, key) + [now])
    then Some(LastDestination(history, key))
    else None
  }

  function Clock(history: seq<Op>): int {
    if history == [] then 0 else history[|history| - 1].at
  }

  /** How the table represents a history, for one key. */
  ghost predicate Represents(t: Flows, history: seq<Op>, key: FlowKey) {
    var times := Touches(history, key);
    if key in t
    then times != [] && NoLongGap(times) && t[key] == FlowEntry(LastDestination(history, key), times[|times| - 1])
    else times == [] || !NoLongGap(times) || Clock(history) - times[|times| - 1] > TTL_MILLIS
  }

  lemma GapAppend(times: seq<int>, now: int)
    requires times != []
    ensures NoLongGap(times + [now]) <==> NoLongGap(times) && now - times[|times| - 1] <= TTL_MILLIS
  {
    var all := times + [now];
    if NoLongGap(all) {
      assert all[|times| - 1 + 1] - all[|times| - 1] <= TTL_MILLIS;
      forall i | 0 <= i < |times| - 1 ensures times[i + 1] - times[i] <= TTL_MILLIS {
        assert all[i + 1] - all[i] <= TTL_MILLIS;
      }
    }
  }

  lemma TouchesAreNotLater(history: seq<Op>, key: FlowKey)
    requires Ordered(history) && Touches(history, key) != []
    ensures Touches(history, key)[|Touches(history, key)| - 1] <= Clock(history)
  {
    var front, op := history[..|history| - 1], history[|history| - 1];
    if op.key != key {
      TouchesAreNotLater(front, key);
    }
  }

  /** One more operation keeps the representation, for every key and every pruning policy. */
  lemma ApplyRepresents(t: Flows, history: seq<Op>, op: Op, key: FlowKey, policy: Policy)
    requires Represents(t, history, key)
    requires history != [] ==> Clock(history) <= op.at
    requires history == [] ==> key !in t
    ensures Represents(Apply(t, op, policy), history + [op], key)
  {
    var after := history + [op];
    assert after[..|history|] == history;
    var times := Touches(history, key);
    if op.key == key {
      if times != [] { GapAppend(times, op.at); }
    }
  }

  lemma {:induction false} TableRepresents(history: seq<Op>, key: FlowKey, policy: Policy)
    requires Ordered(history)
    ensures Represents(TableAfter(history, policy), history, key)
  {
    hide Represents, Apply;
    if history == [] {
      EmptyRepresents(key);
    } else {
      var front, op := history[..|history| - 1], history[|history| - 1];
      TableRepresents(front, key, policy);
      ApplyRepresents(TableAfter(front, policy), front, op, key, policy);
      assert front + [op] == history;
    }
  }

  lemma EmptyRepresents(key: FlowKey)
    ensures Represents(map[], [], key)
  {
  }

  /** Sliding expiry over whole histories: whatever the pruning policy, a lookup answers exactly what
      the history of its key promises. */
  lemma LookupKeepsPromise(history: seq<Op>, key: FlowKey, now: int, policy: Policy)
    requires Ordered(history) && (history != [] ==> Clock(history) <= now)
    ensures Reply(TableAfter(history, policy), key, now) == Promised(history, key, now)
  {
    hide TableAfter;
    TableRepresents(history, key, policy);
    var times := Touches(history, key);
    if times != [] {
      GapAppend(times, now);
    }
  }

  /** Two minutes, to the millisecond: what was remembered once is answered up to 120000 ms later. */
  lemma TwoMinutes(key: FlowKey, destination: Destination, at: int, now: int, policy: Policy)
    requires at <= now
    ensures Reply(TableAfter([Remember(key, destination, at)], policy), key, now) ==
            if now - at <= 120000 then Some(destination) else None
  {
    var history := [Remember(key, destination, at)];
    hide TableAfter;
    LookupKeepsPromise(history, key, now, policy);
    assert Touches(history, key) == [at];
    assert [at] + [now] == [at, now];
    if NoLongGap([at, now]) { assert [at, now][0 + 1] - [at, now][0] <= TTL_MILLIS; }
  }

  /** A table is pruned when an insertion leaves more than 4096 entries, and only then: at most 4096
      entries or only live ones remain, and of a smaller table nothing is dropped. */
  lemma PrunedAbove4096(t: Flows, key: FlowKey, destination: Destination, now: int)
    ensures var u := t[key := FlowEntry(destination, now)];
            var r := Remembered(t, key, destination, now, TooLarge);
            && (|u| <= 4096 ==> r == u)
            && (|u| > 4096 ==> forall k :: k in r <==> k in u && now - u[k].touchedMillis <= 120000)
            && (forall k | k in r :: r[k] == u[k])
  {
  }

  /** Pruning cannot be observed: the table that prunes above 4096 entries and one that never prunes
      give every lookup the same reply. */
  lemma PruningIsUnobservable(history: seq<Op>, key: FlowKey, now: int)
    requires Ordered(history) && (history != [] ==> Clock(history) <= now)
    ensures Reply(TableAfter(history, TooLarge), key, now) == Reply(TableAfter(history, Never), key, now)
  {
    LookupKeepsPromise(history, key, now, TooLarge);
    LookupKeepsPromise(history, key, now, Never);
  }
}
