/**
 Replay protection for inbound messages (packages/agent-sdk/src/transport-security.js): each
 accepted (sender, nonce) is recorded once in the shared store, whose old records are purged
 when it grows past its capacity.
 */
module ReplayProtection {
  import opened Common
  import opened SharedStore
  import opened MessageEnvelope

  const REPLAY_PREFIX := "replay:"

  datatype Limits = Limits(maxEntries: int, retentionMs: int)

  type Table = seq<Row<int>>

  function KeyOf(sender: string, nonce: string): string {
    REPLAY_PREFIX + (sender + ":" + nonce)
  }

  function CountOf(rows: Table): nat {
    |Matching(rows, REPLAY_PREFIX)|
  }

  /** Purge what is past retention; evict the oldest if that was not enough. */
  function Enforced(rows: Table, limits: Limits, now: int): Table {
    if CountOf(rows) <= limits.maxEntries then rows else
      var kept := Survivors(rows, now - limits.retentionMs);
      if CountOf(kept) <= limits.maxEntries then kept else Evicted(kept, REPLAY_PREFIX, limits.maxEntries)
  }

  predicate EvictionFires(rows: Table, limits: Limits, now: int) {
    CountOf(rows) > limits.maxEntries && CountOf(Survivors(rows, now - limits.retentionMs)) > limits.maxEntries
  }

  /** The table after a record, and whether this was the first. */
  function Recorded(rows: Table, limits: Limits, key: string, now: int): (Table, bool) {
    if Find(rows, key).Some? then (rows, false)
    else (Enforced(rows + [Row(key, Rec(now, 1, now))], limits, now), true)
  }

  datatype StoreError = StoreFailed

  class ReplayStore {
    const backend: LocalStore<int, StoreError>
    const limits: Limits

    constructor (backend: LocalStore<int, StoreError>, limits: Limits)
      ensures this.backend == backend && this.limits == limits
    {
      this.backend := backend;
      this.limits := limits;
    }

    method EnforceCapacity(now: int)
      requires backend.Valid()
      modifies backend
      ensures backend.Valid() && backend.rows == Enforced(old(backend.rows), limits, now)
    {
      if CountOf(backend.rows) <= limits.maxEntries {
        return;
      }
      var purged := backend.PurgeExpired(now - limits.retentionMs);
      if CountOf(backend.rows) > limits.maxEntries {
        var evicted := backend.EvictOldest(REPLAY_PREFIX, limits.maxEntries);
      }
    }

    method Record(sender: string, nonce: string, now: int) returns (first: bool)
      requires backend.Valid()
      modifies backend
      ensures backend.Valid()
      ensures (backend.rows, first) == Recorded(old(backend.rows), limits, KeyOf(sender, nonce), now)
    {
      first := backend.Claim(KeyOf(sender, nonce), now, now);
      if first {
        EnforceCapacity(now);
      }
    }
  }

  /** The receiving service, with its store of accepted messages. */
  datatype Service = Service(self: string, directory: string -> Identity, maxAgeMs: int, limits: Limits, writer: Writer)

  function Received(s: Service, rows: Table, body: Option<Envelope>, now: int): (Table, Option<Refusal>) {
    var refusal := CheckInbound(body, s.self, s.directory, s.maxAgeMs, now, s.writer);
    if refusal.Some? || body.None? || body.value.nonce.None? then (rows, refusal) else
      var (next, first) := Recorded(rows, s.limits, KeyOf(body.value.sender, body.value.nonce.value), now);
      (next, if first then None else Some(ReplayDetected))
  }

  method VerifyRequest(s: Service, store: ReplayStore, body: Option<Envelope>, now: int)
    returns (refusal: Option<Refusal>)
    requires store.backend.Valid() && store.limits == s.limits
    modifies store.backend
    ensures store.backend.Valid()
    ensures (store.backend.rows, refusal) == Received(s, old(store.backend.rows), body, now)
  {
    refusal := CheckInbound(body, s.self, s.directory, s.maxAgeMs, now, s.writer);
    if refusal.None? {
      PassedMeans(body, s.self, s.directory, s.maxAgeMs, now, s.writer);
      var first := store.Record(body.value.sender, body.value.nonce.value, now);
      if !first {
        return Some(ReplayDetected);
      }
    }
  }

  // ---- Records and keys --------------------------------------------------

  /** Distinct messages have distinct keys when no sender name holds a colon. */
  lemma {:induction false} KeysDistinct(s: string, m: string, t: string, n: string)
    requires ':' !in s && ':' !in t && KeyOf(s, m) == KeyOf(t, n)
    ensures s == t && m == n
    decreases |s|
  {
    var x, y := s + ":" + m, t + ":" + n;
    assert KeyOf(s, m)[7..] == x && KeyOf(t, n)[7..] == y;
    assert s != [] ==> x[0] == s[0];
    assert t != [] ==> y[0] == t[0];
    if s == [] || t == [] {
      assert x[1..] == m && y[1..] == n;
    } else {
      assert x[1..] == s[1..] + ":" + m && y[1..] == t[1..] + ":" + n;
      KeysDistinct(s[1..], m, t[1..], n);
    }
  }

  /** Whatever is refused leaves the table as it was. */
  lemma RefusedChangesNothing(s: Service, rows: Table, body: Option<Envelope>, now: int)
    ensures Received(s, rows, body, now).1.Some? ==> Received(s, rows, body, now).0 == rows
  {
  }

  /** Acceptance exactly: every check passes and the key is not on record. */
  lemma AcceptedExactly(s: Service, rows: Table, body: Option<Envelope>, now: int)
    ensures Received(s, rows, body, now).1.None? <==>
      && CheckInbound(body, s.self, s.directory, s.maxAgeMs, now, s.writer).None?
      && Find(rows, KeyOf(body.value.sender, body.value.nonce.value)).None?
  {
    PassedMeans(body, s.self, s.directory, s.maxAgeMs, now, s.writer);
  }

  // ---- Runs --------------------------------------------------------------

  /** A message arrives, or other users of the store change keys outside the prefix. */
  datatype Event = Deliver(now: int, body: Option<Envelope>) | Foreign(now: int, rows: Table)

  ghost predicate SameRecords(a: Table, b: Table) {
    forall key: string | REPLAY_PREFIX <= key :: Find(a, key) == Find(b, key)
  }

  /** Time does not run back; foreign changes leave the records alone. */
  ghost predicate Legal(rows: Table, clock: int, event: Event) {
    clock <= event.now && (event.Foreign? ==> Distinct(event.rows) && SameRecords(rows, event.rows))
  }

  function Step(s: Service, rows: Table, event: Event): Table {
    match event
    case Deliver(now, body) => Received(s, rows, body, now).0
    case Foreign(_, next) => next
  }

  ghost predicate Accepts(s: Service, rows: Table, event: Event, key: string) {
    && event.Deliver? && Received(s, rows, event.body, event.now).1.None?
    && event.body.Some? && event.body.value.nonce.Some?
    && KeyOf(event.body.value.sender, event.body.value.nonce.value) == key
  }

  /** The step evicts a record that retention alone would have kept. */
  ghost predicate Evicts(s: Service, rows: Table, event: Event) {
    exists key :: Accepts(s, rows, event, key)
      && EvictionFires(rows + [Row(key, Rec(event.now, 1, event.now))], s.limits, event.now)
  }

  ghost predicate LegalRun(s: Service, rows: Table, clock: int, events: seq<Event>)
    decreases |events|
  {
    events == [] || (Legal(rows, clock, events[0])
      && LegalRun(s, Step(s, rows, events[0]), events[0].now, events[1..]))
  }

  function Run(s: Service, rows: Table, events: seq<Event>): Table
    decreases |events|
  {
    if events == [] then rows else Run(s, Step(s, rows, events[0]), events[1..])
  }

  ghost predicate NeverEvicts(s: Service, rows: Table, events: seq<Event>)
    decreases |events|
  {
    events == [] || (!Evicts(s, rows, events[0]) && NeverEvicts(s, Step(s, rows, events[0]), events[1..]))
  }

  // ---- A record stays through retention ----------------------------------

  lemma ClaimedIsFound(rows: Table, key: string, now: int, other: string)
    requires Distinct(rows) && Find(rows, key).None?
    ensures var next := rows + [Row(key, Rec(now, 1, now))];
      Distinct(next) && Find(next, other) == if other == key then Some(Rec(now, 1, now)) else Find(rows, other)
  {
    FindPut(rows, key, Rec(now, 1, now), other);
    assert Put(rows, key, Rec(now, 1, now)) == rows + [Row(key, Rec(now, 1, now))];
  }

  /** Without eviction, capacity control forgets only what is past retention. */
  lemma EnforcedKeeps(rows: Table, limits: Limits, now: int, key: string)
    requires Distinct(rows) && !EvictionFires(rows, limits, now)
    ensures var next := Enforced(rows, limits, now);
      && Distinct(next)
      && (Find(rows, key).Some? && Find(rows, key).value.updatedAt >= now - limits.retentionMs ==>
          Find(next, key) == Find(rows, key))
  {
    EnforcedShape(rows, limits, now);
    FindSurvivor(rows, now - limits.retentionMs, key);
  }

  /** Capacity control leaves at most as many records as are allowed. It takes nothing while
      there are no more, only what is past retention while that is enough, and otherwise
      leaves the last inserted of the rest. */
  lemma EnforcedExactly(rows: Table, limits: Limits, now: int)
    requires limits.maxEntries >= 0
    ensures var next, kept := Enforced(rows, limits, now), Survivors(rows, now - limits.retentionMs);
      && CountOf(next) <= limits.maxEntries
      && (CountOf(rows) <= limits.maxEntries ==> next == rows)
      && (CountOf(rows) > limits.maxEntries && CountOf(kept) <= limits.maxEntries ==> next == kept)
      && (CountOf(rows) > limits.maxEntries && CountOf(kept) > limits.maxEntries ==>
            Matching(next, REPLAY_PREFIX)
            == Matching(kept, REPLAY_PREFIX)[CountOf(kept) - limits.maxEntries..])
  {
    var kept := Survivors(rows, now - limits.retentionMs);
    if CountOf(kept) > limits.maxEntries {
      EvictedMatching(kept, REPLAY_PREFIX, CountOf(kept) - limits.maxEntries);
    }
  }

  lemma EnforcedShape(rows: Table, limits: Limits, now: int)
    requires !EvictionFires(rows, limits, now)
    ensures Enforced(rows, limits, now) == rows
        || Enforced(rows, limits, now) == Survivors(rows, now - limits.retentionMs)
  {
  }

  /** Capacity control is not confined to the prefix: in a shared store a row of any other
      user goes exactly when the purge runs and the row is past retention. */
  lemma ForeignRowsGoToo(rows: Table, limits: Limits, now: int, key: string)
    requires Distinct(rows) && !(REPLAY_PREFIX <= key) && Find(rows, key).Some?
    ensures Find(Enforced(rows, limits, now), key).None? <==>
      CountOf(rows) > limits.maxEntries && Find(rows, key).value.updatedAt < now - limits.retentionMs
  {
    var kept := Survivors(rows, now - limits.retentionMs);
    FindSurvivor(rows, now - limits.retentionMs, key);
    EvictedOthers(kept, REPLAY_PREFIX, CountOf(kept) - limits.maxEntries, key);
  }

  lemma StepKeeps(s: Service, rows: Table, clock: int, event: Event, key: string)
    requires Distinct(rows) && Legal(rows, clock, event) && !Evicts(s, rows, event) && REPLAY_PREFIX <= key
    ensures Distinct(Step(s, rows, event))
    ensures Find(rows, key).Some? && event.now <= Find(rows, key).value.updatedAt + s.limits.retentionMs ==>
      Find(Step(s, rows, event), key) == Find(rows, key)
    ensures Accepts(s, rows, event, key) && 0 <= s.limits.retentionMs ==>
      Find(Step(s, rows, event), key) == Some(Rec(event.now, 1, event.now))
  {
    if event.Deliver? && Received(s, rows, event.body, event.now).1.None? {
      PassedMeans(event.body, s.self, s.directory, s.maxAgeMs, event.now, s.writer);
      var now, claimed := event.now, KeyOf(event.body.value.sender, event.body.value.nonce.value);
      assert Accepts(s, rows, event, claimed);
      ClaimedIsFound(rows, claimed, now, key);
      EnforcedKeeps(rows + [Row(claimed, Rec(now, 1, now))], s.limits, now, key);
    }
  }

  /** A record outlasts every run that ends within its retention. */
  lemma {:induction false} RecordOutlasts(s: Service, rows: Table, clock: int, events: seq<Event>,
                                          key: string, end: int)
    requires Distinct(rows) && LegalRun(s, rows, clock, events) && NeverEvicts(s, rows, events)
    requires REPLAY_PREFIX <= key && Find(rows, key).Some?
        && end <= Find(rows, key).value.updatedAt + s.limits.retentionMs
    requires forall i | 0 <= i < |events| :: events[i].now <= end
    ensures Find(Run(s, rows, events), key) == Find(rows, key)
    decreases |events|
  {
    if events != [] {
      StepKeeps(s, rows, clock, events[0], key);
      RecordOutlasts(s, Step(s, rows, events[0]), events[0].now, events[1..], key, end);
    }
  }

  /** Once a (sender, nonce) is accepted, nothing under it is accepted again until retention
      has passed. */
  lemma AcceptedAgainOnlyLater(s: Service, rows: Table, clock: int, first: Event, between: seq<Event>,
                               second: Event, key: string)
    requires Distinct(rows) && s.limits.retentionMs >= 0
    requires LegalRun(s, rows, clock, [first] + between) && NeverEvicts(s, rows, [first] + between)
    requires forall i | 0 <= i < |between| :: between[i].now <= second.now
    requires Accepts(s, rows, first, key)
    requires Accepts(s, Run(s, rows, [first] + between), second, key)
    ensures second.now > first.now + s.limits.retentionMs
  {
    var all := [first] + between;
    assert all[1..] == between && all[0] == first;
    StepKeeps(s, rows, clock, first, key);
    AcceptedExactly(s, Run(s, rows, all), second.body, second.now);
    if second.now <= first.now + s.limits.retentionMs {
      RecordOutlasts(s, Step(s, rows, first), first.now, between, key, second.now);
    }
  }

  /** Of all envelopes with one sender, nonce and timestamp, however signed, at most one is
      accepted, purges or not, when retention is at least twice the freshness window. */
  lemma AcceptedOnce(s: Service, rows: Table, clock: int, first: Event, between: seq<Event>, second: Event, key: string)
    requires Distinct(rows) && 2 * s.maxAgeMs <= s.limits.retentionMs
    requires LegalRun(s, rows, clock, [first] + between) && NeverEvicts(s, rows, [first] + between)
    requires forall i | 0 <= i < |between| :: between[i].now <= second.now
    requires Accepts(s, rows, first, key)
    requires second.Deliver? && second.body.Some? && second.body.value.timestamp == first.body.value.timestamp
    ensures !Accepts(s, Run(s, rows, [first] + between), second, key)
  {
    if Accepts(s, Run(s, rows, [first] + between), second, key) {
      PassedMeans(first.body, s.self, s.directory, s.maxAgeMs, first.now, s.writer);
      PassedMeans(second.body, s.self, s.directory, s.maxAgeMs, second.now, s.writer);
      AcceptedAgainOnlyLater(s, rows, clock, first, between, second, key);
    }
  }

  // ---- The factor two is needed ------------------------------------------

  /** A message dated as far ahead as freshness allows, and another to set off the purge. */
  function Message(nonce: string, timestamp: int): Option<Envelope> {
    Some(Envelope(1, "a", "b", Some(Plain("")), Some(nonce), Some(timestamp), ""))
  }

  function Trusting(maxAgeMs: int, retentionMs: int): Service {
    Service("b", (sender: string) => Known((text: string, signature: string) => true), maxAgeMs, Limits(1, retentionMs),
            Writer(n => "", v => ""))
  }

  lemma SurvivorsOfTwo(x: Row<int>, y: Row<int>, before: int)
    requires x.rec.updatedAt < before <= y.rec.updatedAt
    ensures Survivors([x] + [y], before) == [y]
  {
    assert ([x] + [y])[..1] == [x] && [x][..0] == [];
    assert Survivors([x], before) == [];
  }

  lemma Delivered(s: Service, rows: Table, now: int, nonce: string, timestamp: int)
    requires s == Trusting(s.maxAgeMs, s.limits.retentionMs) && nonce != ""
    requires Abs(now - timestamp) <= s.maxAgeMs && Find(rows, KeyOf("a", nonce)).None?
    requires !EvictionFires(rows + [Row(KeyOf("a", nonce), Rec(now, 1, now))], s.limits, now)
    ensures var event := Deliver(now, Message(nonce, timestamp));
      && Accepts(s, rows, event, KeyOf("a", nonce)) && !Evicts(s, rows, event)
      && Step(s, rows, event) == Enforced(rows + [Row(KeyOf("a", nonce), Rec(now, 1, now))], s.limits, now)
  {
  }

  /** With any shorter retention some run accepts one envelope twice, no eviction involved. */
  lemma ShorterRetentionFails(maxAgeMs: nat, retentionMs: nat)
    requires retentionMs < 2 * maxAgeMs
    ensures var s := Trusting(maxAgeMs, retentionMs);
      var first, other, again := Deliver(0, Message("x", maxAgeMs)), Deliver(2 * maxAgeMs, Message("y", 2 * maxAgeMs)),
        Deliver(2 * maxAgeMs, Message("x", maxAgeMs));
      && LegalRun(s, [], 0, [first, other, again]) && NeverEvicts(s, [], [first, other])
      && Accepts(s, [], first, KeyOf("a", "x")) && Accepts(s, Run(s, [], [first, other]), again, KeyOf("a", "x"))
  {
    var s := Trusting(maxAgeMs, retentionMs);
    var x, y, end := KeyOf("a", "x"), KeyOf("a", "y"), 2 * maxAgeMs;
    var first, other, again :=
      Deliver(0, Message("x", maxAgeMs)), Deliver(end, Message("y", end)), Deliver(end, Message("x", maxAgeMs));
    var rowX, rowY := Row(x, Rec(0, 1, 0)), Row(y, Rec(end, 1, end));
    KeysDiffer();
    OneRecord(rowX);
    OneRecord(rowY);
    TwoRecords(rowX, rowY);
    SurvivorsOfTwo(rowX, rowY, end - retentionMs);
    assert [] + [rowX] == [rowX];
    Delivered(s, [], 0, "x", maxAgeMs);
    Delivered(s, [rowX], end, "y", end);
    assert [first, other, again][1..] == [other, again] && [other, again][1..] == [again] && [again][1..] == [];
    assert [first, other][1..] == [other] && [other][1..] == [];
    assert Run(s, [rowX], [other]) == Run(s, [rowY], []);
    AcceptedExactly(s, [rowY], again.body, end);
    assert LegalRun(s, [rowY], end, [again]);
    assert LegalRun(s, [rowX], 0, [other, again]);
    assert NeverEvicts(s, [rowX], [other]);
  }

  lemma KeysDiffer()
    ensures KeyOf("a", "x") != KeyOf("a", "y")
  {
    assert KeyOf("a", "x")[9] == 'x' && KeyOf("a", "y")[9] == 'y';
  }

  lemma OneRecord(row: Row<int>)
    requires REPLAY_PREFIX <= row.key
    ensures CountOf([row]) == 1 && IndexOf([row], row.key) == 0
    ensures forall key :: key != row.key ==> IndexOf([row], key) == 1
  {
    assert Matching([row][1..], REPLAY_PREFIX) == [];
    assert Matching([row], REPLAY_PREFIX) == [row.key] + [] == [row.key];
    forall key | key != row.key ensures IndexOf([row], key) == 1 {
      assert IndexOf([row][1..], key) == 0;
    }
  }

  lemma TwoRecords(x: Row<int>, y: Row<int>)
    requires REPLAY_PREFIX <= x.key && REPLAY_PREFIX <= y.key
    ensures CountOf([x] + [y]) == 2
  {
    var both := [x] + [y];
    OneRecord(y);
    assert both[1..] == [y];
    assert Matching(both, REPLAY_PREFIX) == [x.key] + Matching([y], REPLAY_PREFIX);
  }
}
