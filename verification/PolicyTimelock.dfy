/**
 The policy time-lock (packages/agent-keys/src/takeover.js): scheduled policy changes that
 take effect after a delay, kept in memory and written through to a store whose writes may
 fail. A crash is the loss of the object; a restart rebuilds it from the store.
 */
module PolicyTimelock {
  import opened Common
  import opened SpendPolicy

  datatype Change = Change(id: string, agentId: string, policy: Policy, scheduledAt: int, createdAt: int)

  /** What a call answers. Failed is the exception a failed write raises. */
  datatype Reply =
    | Invalid
    | Scheduled(id: string, effectiveAt: int)
    | NotFound
    | AlreadyEffective(id: string)
    | Revoked(id: string)
    | Effective(changes: seq<Change>)
    | Cleared(count: nat)
    | Restarted
    | Failed

  /** Memory and store side by side. */
  datatype State = State(pending: seq<Change>, stored: seq<Change>)

  // ---- Lists of changes --------------------------------------------------

  function Ids(cs: seq<Change>): set<string> {
    set c | c in cs :: c.id
  }

  ghost predicate Distinct(cs: seq<Change>) {
    forall i, j | 0 <= i < j < |cs| :: cs[i].id != cs[j].id
  }

  function Select(keep: Change -> bool, cs: seq<Change>): seq<Change> {
    if cs == [] then [] else
      var rest, last := Select(keep, cs[..|cs| - 1]), cs[|cs| - 1];
      if keep(last) then rest + [last] else rest
  }

  lemma {:induction false} SelectFacts(keep: Change -> bool, cs: seq<Change>)
    ensures forall c :: c in Select(keep, cs) <==> c in cs && keep(c)
    ensures Distinct(cs) ==> Distinct(Select(keep, cs))
    decreases |cs|
  {
    if cs != [] {
      var init, last := cs[..|cs| - 1], cs[|cs| - 1];
      assert cs == init + [last];
      SelectFacts(keep, init);
      if Distinct(cs) {
        forall c | c in Select(keep, init) ensures c.id != last.id {
          assert c in init;
        }
      }
    }
  }

  function Due(cs: seq<Change>, now: int): seq<Change> {
    Select((c: Change) => now >= c.scheduledAt, cs)
  }

  function NotDue(cs: seq<Change>, now: int): seq<Change> {
    Select((c: Change) => now < c.scheduledAt, cs)
  }

  function Without(cs: seq<Change>, id: string): seq<Change> {
    Select((c: Change) => c.id != id, cs)
  }

  lemma DueFacts(cs: seq<Change>, now: int)
    ensures forall c :: c in Due(cs, now) <==> c in cs && now >= c.scheduledAt
    ensures forall c :: c in NotDue(cs, now) <==> c in cs && now < c.scheduledAt
    ensures Distinct(cs) ==> Distinct(Due(cs, now)) && Distinct(NotDue(cs, now))
  {
    SelectFacts((c: Change) => now >= c.scheduledAt, cs);
    SelectFacts((c: Change) => now < c.scheduledAt, cs);
  }

  lemma WithoutFacts(cs: seq<Change>, id: string)
    ensures forall c :: c in Without(cs, id) <==> c in cs && c.id != id
    ensures Distinct(cs) ==> Distinct(Without(cs, id))
  {
    SelectFacts((c: Change) => c.id != id, cs);
  }

  lemma DueStep(cs: seq<Change>, i: nat, now: int)
    requires i < |cs|
    ensures Due(cs[..i + 1], now) == Due(cs[..i], now) + (if now >= cs[i].scheduledAt then [cs[i]] else [])
    ensures NotDue(cs[..i + 1], now) == NotDue(cs[..i], now) + (if now < cs[i].scheduledAt then [cs[i]] else [])
  {
    assert cs[..i + 1][..i] == cs[..i];
  }

  function Find(cs: seq<Change>, id: string): (r: Option<Change>)
    ensures r.Some? ==> r.value in cs && r.value.id == id
    ensures r.None? ==> id !in Ids(cs)
  {
    if cs == [] then None
    else if cs[0].id == id then Some(cs[0])
    else Find(cs[1..], id)
  }

  // ---- Calls on values ---------------------------------------------------

  /** Write-through: on failure memory keeps the new list and the store the old one. */
  function Persist(st: State, next: seq<Change>, ok: bool): State {
    State(next, if ok then next else st.stored)
  }

  function Schedule(st: State, delay: nat, c: Change, ok: bool): (State, Reply) {
    if c.agentId == "" then (st, Invalid)
    else if !ok then (st, Failed)
    else (Persist(st, st.pending + [c], true), Scheduled(c.id, c.scheduledAt))
  }

  function Revoke(st: State, id: string, now: int, ok: bool): (State, Reply) {
    if id == "" then (st, Invalid) else
      var c := Find(st.pending, id);
      if c.None? then (st, NotFound) else
        var st' := Persist(st, Without(st.pending, id), ok);
        if !ok then (st', Failed)
        else if now >= c.value.scheduledAt then (st', AlreadyEffective(id))
        else (st', Revoked(id))
  }

  function Poll(st: State, now: int, ok: bool): (State, Reply) {
    var due := Due(st.pending, now);
    if due == [] then (st, Effective([])) else
      (Persist(st, NotDue(st.pending, now), ok), if ok then Effective(due) else Failed)
  }

  function Clear(st: State, ok: bool): (State, Reply) {
    if st.pending == [] then (st, Cleared(0)) else
      (Persist(st, [], ok), if ok then Cleared(|st.pending|) else Failed)
  }

  function Restart(st: State): (State, Reply) {
    (State(st.stored, st.stored), Restarted)
  }

  // ---- The objects -------------------------------------------------------

  /** The store entry the time-lock owns; it outlives the object that writes it. */
  class Durable {
    var entries: seq<Change>

    constructor ()
      ensures entries == []
    {
      entries := [];
    }

    method Write(list: seq<Change>, ok: bool)
      modifies this
      ensures entries == if ok then list else old(entries)
    {
      if ok {
        entries := list;
      }
    }
  }

  class Timelock {
    const delay: nat
    const store: Durable
    var pending: seq<Change>

    function Abs(): State
      reads this, store
    {
      State(pending, store.entries)
    }

    /** Construction over an existing store is the restart after a crash. */
    constructor (delay: nat, store: Durable)
      ensures this.delay == delay && this.store == store
      ensures forall p :: Abs() == Restart(State(p, old(store.entries))).0
    {
      this.delay := delay;
      this.store := store;
      pending := store.entries;
    }

    method ScheduleChange(id: string, agentId: string, policy: Policy, now: int, ok: bool) returns (r: Reply)
      modifies this, store
      ensures (Abs(), r) == Schedule(old(Abs()), delay, Change(id, agentId, policy, now + delay, now), ok)
    {
      if agentId == "" {
        return Invalid;
      }
      var before := pending;
      pending := pending + [Change(id, agentId, policy, now + delay, now)];
      store.Write(pending, ok);
      if !ok {
        pending := before;
        return Failed;
      }
      r := Scheduled(id, now + delay);
    }

    method RevokeChange(id: string, now: int, ok: bool) returns (r: Reply)
      modifies this, store
      ensures (Abs(), r) == Revoke(old(Abs()), id, now, ok)
    {
      if id == "" {
        return Invalid;
      }
      var change := Find(pending, id);
      if change.None? {
        return NotFound;
      }
      pending := Without(pending, id);
      store.Write(pending, ok);
      if !ok {
        return Failed;
      }
      r := if now >= change.value.scheduledAt then AlreadyEffective(id) else Revoked(id);
    }

    method GetEffectiveChanges(now: int, ok: bool) returns (r: Reply)
      modifies this, store
      ensures (Abs(), r) == Poll(old(Abs()), now, ok)
    {
      var effective: seq<Change>, kept: seq<Change> := [], [];
      for i := 0 to |pending|
        invariant pending == old(pending) && store.entries == old(store.entries)
        invariant effective == Due(pending[..i], now) && kept == NotDue(pending[..i], now)
      {
        DueStep(pending, i, now);
        if now >= pending[i].scheduledAt {
          effective := effective + [pending[i]];
        } else {
          kept := kept + [pending[i]];
        }
      }
      assert pending[..|pending|] == pending;
      if |effective| == 0 {
        return Effective([]);
      }
      pending := kept;
      store.Write(pending, ok);
      r := if ok then Effective(effective) else Failed;
    }

    method ClearAll(ok: bool) returns (r: Reply)
      modifies this, store
      ensures (Abs(), r) == Clear(old(Abs()), ok)
    {
      var count := |pending|;
      pending := [];
      if count == 0 {
        return Cleared(0);
      }
      store.Write(pending, ok);
      r := if ok then Cleared(count) else Failed;
    }
  }
}
