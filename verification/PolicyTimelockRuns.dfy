/**
 Every run of the policy time-lock: calls in any order, store writes failing at will,
 crashes at any point. What callers were told is logged, and where every scheduled change
 is follows from memory, store and log alone.
 */
module PolicyTimelockRuns {
  import opened SpendPolicy
  import opened PolicyTimelock

  datatype Call =
    | DoSchedule(id: string, agentId: string, policy: Policy, now: int, ok: bool)
    | DoRevoke(id: string, now: int, ok: bool)
    | DoPoll(now: int, ok: bool)
    | DoClear(ok: bool)
    | DoRestart

  /** What successful replies said became of a change; a clear names by its count all that
      was pending. */
  datatype Told =
    | Returned(id: string, at: int)
    | RevokedTrue(id: string, at: int)
    | TooLate(id: string, at: int)
    | ClearedAway(id: string)

  /** `due` remembers when each change ever scheduled takes effect. */
  datatype Sys = Sys(st: State, due: map<string, int>, log: seq<Told>)

  const INITIAL := Sys(State([], []), map[], [])

  function Answer(st: State, delay: nat, call: Call): (State, Reply) {
    match call
    case DoSchedule(id, agentId, policy, now, ok) =>
      Schedule(st, delay, Change(id, agentId, policy, now + delay, now), ok)
    case DoRevoke(id, now, ok) => Revoke(st, id, now, ok)
    case DoPoll(now, ok) => Poll(st, now, ok)
    case DoClear(ok) => Clear(st, ok)
    case DoRestart => Restart(st)
  }

  /** The call reported success after writing the store. */
  predicate Wrote(r: Reply) {
    match r
    case Scheduled(_, _) => true
    case AlreadyEffective(_) => true
    case Revoked(_) => true
    case Effective(cs) => cs != []
    case Cleared(n) => n > 0
    case _ => false
  }

  function News(st: State, call: Call, r: Reply): seq<Told> {
    match r
    case Effective(cs) =>
      if call.DoPoll? then seq(|cs|, i requires 0 <= i < |cs| => Returned(cs[i].id, call.now)) else []
    case Revoked(id) => if call.DoRevoke? then [RevokedTrue(id, call.now)] else []
    case AlreadyEffective(id) => if call.DoRevoke? then [TooLate(id, call.now)] else []
    case Cleared(_) => seq(|st.pending|, i requires 0 <= i < |st.pending| => ClearedAway(st.pending[i].id))
    case _ => []
  }

  function Step(sys: Sys, delay: nat, call: Call): Sys {
    var (st, r) := Answer(sys.st, delay, call);
    Sys(st, if r.Scheduled? then sys.due[r.id := r.effectiveAt] else sys.due, sys.log + News(sys.st, call, r))
  }

  /** Change ids are random UUIDs: a schedule never reuses one. */
  predicate Fresh(sys: Sys, call: Call) {
    call.DoSchedule? ==> call.id !in sys.due && call.id != ""
  }

  predicate AllFresh(sys: Sys, delay: nat, calls: seq<Call>)
    decreases |calls|
  {
    calls == [] || (Fresh(sys, calls[0]) && AllFresh(Step(sys, delay, calls[0]), delay, calls[1..]))
  }

  function Run(sys: Sys, delay: nat, calls: seq<Call>): Sys
    decreases |calls|
  {
    if calls == [] then sys else Run(Step(sys, delay, calls[0]), delay, calls[1..])
  }

  // ---- Where a change is -------------------------------------------------

  predicate InPending(sys: Sys, id: string) {
    id in Ids(sys.st.pending)
  }

  /** Gone from memory, but a restart brings it back. */
  predicate StoreOnly(sys: Sys, id: string) {
    id in Ids(sys.st.stored) && id !in Ids(sys.st.pending)
  }

  ghost predicate Logged(sys: Sys, id: string) {
    exists i :: 0 <= i < |sys.log| && sys.log[i].id == id
  }

  /** Scheduled, and now in neither list, and nobody was told anything. */
  ghost predicate Lost(sys: Sys, id: string) {
    id in sys.due && id !in Ids(sys.st.pending) && id !in Ids(sys.st.stored) && !Logged(sys, id)
  }

  // ---- The invariant -----------------------------------------------------

  ghost predicate ListsInv(st: State) {
    Distinct(st.pending) && Distinct(st.stored) && forall c | c in st.pending :: c in st.stored
  }

  ghost predicate Dated(sys: Sys) {
    forall c | c in sys.st.stored :: c.id in sys.due && sys.due[c.id] == c.scheduledAt
  }

  /** What one log entry claims, and that its change is gone from the store for good. */
  ghost predicate Honest(sys: Sys, t: Told) {
    && t.id in sys.due && t.id !in Ids(sys.st.stored)
    && match t
       case Returned(id, at) => at >= sys.due[id]
       case RevokedTrue(id, at) => at < sys.due[id]
       case TooLate(id, at) => at >= sys.due[id]
       case ClearedAway(_) => true
  }

  ghost predicate IdsDistinct(log: seq<Told>) {
    forall i, j | 0 <= i < j < |log| :: log[i].id != log[j].id
  }

  ghost predicate LogInv(sys: Sys) {
    IdsDistinct(sys.log) && forall i | 0 <= i < |sys.log| :: Honest(sys, sys.log[i])
  }

  ghost predicate Inv(sys: Sys) {
    ListsInv(sys.st) && Dated(sys) && LogInv(sys)
  }

  // ---- What one call can do to the lists ---------------------------------

  /** How memory and store move. */
  ghost predicate Moves(st: State, st': State, r: Reply) {
    && (Wrote(r) || r.Restarted? ==> st'.stored == st'.pending)
    && (!Wrote(r) ==> st'.stored == st.stored)
    && (!Wrote(r) && !r.Restarted? && !r.Failed? ==> st'.pending == st.pending)
    && (!r.Scheduled? && !r.Restarted? ==> forall c | c in st'.pending :: c in st.pending)
  }

  ghost predicate Adds(st: State, st': State, call: Call, r: Reply)
    requires r.Scheduled?
  {
    && call.DoSchedule? && r.id == call.id
    && exists c :: st'.pending == st.pending + [c] && c.id == r.id && c.scheduledAt == r.effectiveAt
  }

  /** A poll that succeeds returns exactly what left memory, all of it due. */
  ghost predicate Delivers(st: State, st': State, call: Call, cs: seq<Change>) {
    && call.DoPoll?
    && (forall c :: c in cs <==> c in st.pending && c !in st'.pending)
    && (forall c | c in cs :: call.now >= c.scheduledAt)
    && (Distinct(st.pending) ==> Distinct(cs))
  }

  /** A revocation takes one change out of memory; whether in time is by its date. */
  ghost predicate TakesOut(st: State, st': State, call: Call, id: string, late: bool) {
    && call.DoRevoke? && call.id == id
    && (forall c :: c in st'.pending <==> c in st.pending && c.id != id)
    && exists c :: c in st.pending && c.id == id && (late <==> call.now >= c.scheduledAt)
  }

  ghost predicate Shape(st: State, st': State, call: Call, r: Reply) {
    && Moves(st, st', r)
    && (r.Scheduled? ==> Adds(st, st', call, r))
    && (r.Effective? ==> Delivers(st, st', call, r.changes))
    && (r.Revoked? ==> TakesOut(st, st', call, r.id, false))
    && (r.AlreadyEffective? ==> TakesOut(st, st', call, r.id, true))
    && (r.Cleared? ==> call.DoClear? && st'.pending == [] && r.count == |st.pending|)
  }

  lemma RevokeShape(st: State, id: string, now: int, ok: bool)
    ensures Shape(st, Revoke(st, id, now, ok).0, DoRevoke(id, now, ok), Revoke(st, id, now, ok).1)
  {
    WithoutFacts(st.pending, id);
  }

  lemma PollShape(st: State, now: int, ok: bool)
    ensures Shape(st, Poll(st, now, ok).0, DoPoll(now, ok), Poll(st, now, ok).1)
  {
    DueFacts(st.pending, now);
  }

  lemma ScheduleShape(st: State, delay: nat, call: Call)
    requires call.DoSchedule?
    ensures Shape(st, Answer(st, delay, call).0, call, Answer(st, delay, call).1)
  {
    var c := Change(call.id, call.agentId, call.policy, call.now + delay, call.now);
    assert Answer(st, delay, call).1.Scheduled? ==> Answer(st, delay, call).0.pending == st.pending + [c];
  }

  lemma ShapeOfAnswer(st: State, delay: nat, call: Call)
    ensures Shape(st, Answer(st, delay, call).0, call, Answer(st, delay, call).1)
  {
    match call
    case DoSchedule(_, _, _, _, _) => ScheduleShape(st, delay, call);
    case DoRevoke(id, now, ok) => RevokeShape(st, id, now, ok);
    case DoPoll(now, ok) => PollShape(st, now, ok);
    case DoClear(ok) =>
    case DoRestart =>
  }

  // ---- Every call keeps the invariant ------------------------------------

  /** The lists alone: distinct ids, and memory never holds what the store does not. */
  lemma ListsStep(sys: Sys, delay: nat, call: Call)
    requires Inv(sys) && Fresh(sys, call)
    ensures ListsInv(Answer(sys.st, delay, call).0)
  {
    match call
    case DoSchedule(id, agentId, policy, now, ok) =>
      forall c | c in sys.st.pending ensures c.id != id {
        assert c in sys.st.stored;
      }
    case DoRevoke(id, now, ok) => WithoutFacts(sys.st.pending, id);
    case DoPoll(now, ok) => DueFacts(sys.st.pending, now);
    case DoClear(ok) =>
    case DoRestart =>
  }

  /** What is stored afterwards was stored before, or is new. */
  lemma StoredOrigin(sys: Sys, delay: nat, call: Call, c: Change)
    requires Inv(sys) && c in Answer(sys.st, delay, call).0.stored
    ensures var r := Answer(sys.st, delay, call).1;
      c in sys.st.stored || (r.Scheduled? && call.DoSchedule?
          && c.id == call.id == r.id && c.scheduledAt == r.effectiveAt)
  {
    ShapeOfAnswer(sys.st, delay, call);
    var (st, r) := Answer(sys.st, delay, call);
    if r.Scheduled? {
      var d :| st.pending == sys.st.pending + [d] && d.id == r.id && d.scheduledAt == r.effectiveAt;
      assert c in sys.st.pending || c == d;
    }
  }

  lemma DatedStep(sys: Sys, delay: nat, call: Call)
    requires Inv(sys) && Fresh(sys, call)
    ensures Dated(Step(sys, delay, call))
  {
    var next := Step(sys, delay, call);
    forall c | c in next.st.stored ensures c.id in next.due && next.due[c.id] == c.scheduledAt {
      StoredOrigin(sys, delay, call, c);
    }
  }

  lemma IdOf(cs: seq<Change>, id: string) returns (c: Change)
    requires id in Ids(cs)
    ensures c in cs && c.id == id
  {
    c :| c in cs && c.id == id;
  }

  /** What was told stays true. */
  lemma ToldStays(sys: Sys, delay: nat, call: Call, t: Told)
    requires Inv(sys) && Fresh(sys, call) && Honest(sys, t)
    ensures Honest(Step(sys, delay, call), t)
  {
    ShapeOfAnswer(sys.st, delay, call);
    var next := Step(sys, delay, call);
    if t.id in Ids(next.st.stored) {
      var c := IdOf(next.st.stored, t.id);
      StoredOrigin(sys, delay, call, c);
      assert false;
    }
  }

  lemma SameIdSame(cs: seq<Change>, c: Change, d: Change)
    requires Distinct(cs) && c in cs && d in cs
    ensures c.id == d.id ==> c == d
  {
  }

  /** A change that this call took out of memory and out of the store. */
  ghost predicate TakenOut(sys: Sys, next: Sys, c: Change) {
    c in sys.st.pending && c.id !in Ids(next.st.stored)
  }

  /** What a successful call tells of c, and nothing else can. */
  ghost predicate TellsOf(call: Call, c: Change, t: Told) {
    && t.id == c.id
    && match t
       case Returned(_, at) => call.DoPoll? && at == call.now >= c.scheduledAt
       case RevokedTrue(id, at) => call.DoRevoke? && call.id == id && at == call.now < c.scheduledAt
       case TooLate(id, at) => call.DoRevoke? && call.id == id && at == call.now >= c.scheduledAt
       case ClearedAway(_) => call.DoClear?
  }

  /** A change in memory that a writing call left out is gone by its id too. */
  lemma GoneById(sys: Sys, delay: nat, call: Call, c: Change)
    requires Inv(sys) && c in sys.st.pending
    requires var (st, r) := Answer(sys.st, delay, call); Wrote(r) && !r.Scheduled? && c !in st.pending
    ensures TakenOut(sys, Step(sys, delay, call), c)
  {
    ShapeOfAnswer(sys.st, delay, call);
    var next := Step(sys, delay, call);
    forall d | d in next.st.stored ensures d.id != c.id {
      SameIdSame(sys.st.pending, c, d);
    }
  }

  /** Every entry a call adds is of a change it took out, and says how. */
  lemma NewsIsTrue(sys: Sys, delay: nat, call: Call, i: nat) returns (c: Change)
    requires Inv(sys) && i < |News(sys.st, call, Answer(sys.st, delay, call).1)|
    ensures TakenOut(sys, Step(sys, delay, call), c)
    ensures TellsOf(call, c, News(sys.st, call, Answer(sys.st, delay, call).1)[i])
  {
    ShapeOfAnswer(sys.st, delay, call);
    var (st, r) := Answer(sys.st, delay, call);
    match r
    case Effective(cs) => c := cs[i];
    case Cleared(_) => c := sys.st.pending[i];
    case Revoked(id) => c :| c in sys.st.pending && c.id == id && call.now < c.scheduledAt;
    case AlreadyEffective(id) => c :| c in sys.st.pending && c.id == id && call.now >= c.scheduledAt;
    GoneById(sys, delay, call, c);
  }

  lemma NewsDistinct(sys: Sys, delay: nat, call: Call)
    requires Inv(sys)
    ensures IdsDistinct(News(sys.st, call, Answer(sys.st, delay, call).1))
  {
    ShapeOfAnswer(sys.st, delay, call);
  }

  lemma NewsIsHonest(sys: Sys, delay: nat, call: Call, i: nat)
    requires Inv(sys) && Fresh(sys, call) && i < |News(sys.st, call, Answer(sys.st, delay, call).1)|
    ensures Honest(Step(sys, delay, call), News(sys.st, call, Answer(sys.st, delay, call).1)[i])
    ensures !Logged(sys, News(sys.st, call, Answer(sys.st, delay, call).1)[i].id)
  {
    var c := NewsIsTrue(sys, delay, call, i);
    assert c in sys.st.stored;
    forall k | 0 <= k < |sys.log| ensures sys.log[k].id != c.id {
      assert Honest(sys, sys.log[k]);
    }
  }

  lemma LogStep(sys: Sys, delay: nat, call: Call)
    requires Inv(sys) && Fresh(sys, call)
    ensures LogInv(Step(sys, delay, call))
  {
    var next := Step(sys, delay, call);
    var n, news := |sys.log|, News(sys.st, call, Answer(sys.st, delay, call).1);
    forall i | 0 <= i < |next.log| ensures Honest(next, next.log[i]) {
      if i < n {
        ToldStays(sys, delay, call, sys.log[i]);
      } else {
        NewsIsHonest(sys, delay, call, i - n);
      }
    }
    NewsDistinct(sys, delay, call);
    forall i, j | 0 <= i < j < |next.log| ensures next.log[i].id != next.log[j].id {
      if j >= n {
        assert next.log[j] == news[j - n];
        NewsIsHonest(sys, delay, call, j - n);
        assert i < n ==> next.log[i] == sys.log[i];
        assert i >= n ==> next.log[i] == news[i - n];
      }
    }
  }

  lemma InvStep(sys: Sys, delay: nat, call: Call)
    requires Inv(sys) && Fresh(sys, call)
    ensures Inv(Step(sys, delay, call))
  {
    ListsStep(sys, delay, call);
    DatedStep(sys, delay, call);
    LogStep(sys, delay, call);
  }

  lemma {:induction false} InvRun(sys: Sys, delay: nat, calls: seq<Call>)
    requires Inv(sys) && AllFresh(sys, delay, calls)
    ensures Inv(Run(sys, delay, calls))
    decreases |calls|
  {
    if calls != [] {
      InvStep(sys, delay, calls[0]);
      InvRun(Step(sys, delay, calls[0]), delay, calls[1..]);
    }
  }

  // ---- What every run guarantees -----------------------------------------

  /** No change is returned early, revoked late, or told of twice: none is returned again, and
      none after its revocation was confirmed. */
  lemma ToldOnceAndInTime(delay: nat, calls: seq<Call>, i: nat, j: nat)
    requires AllFresh(INITIAL, delay, calls)
    requires i < |Run(INITIAL, delay, calls).log| && j < |Run(INITIAL, delay, calls).log|
    ensures var sys := Run(INITIAL, delay, calls); var t := sys.log[i];
      && t.id in sys.due
      && (t.Returned? ==> t.at >= sys.due[t.id])
      && (t.RevokedTrue? ==> t.at < sys.due[t.id])
      && (i != j ==> sys.log[j].id != t.id)
  {
    InvRun(INITIAL, delay, calls);
    var sys := Run(INITIAL, delay, calls);
    assert Honest(sys, sys.log[i]);
    assert i < j ==> sys.log[i].id != sys.log[j].id;
    assert j < i ==> sys.log[j].id != sys.log[i].id;
  }

  /** A scheduled change is due one delay after it was scheduled and keeps that time. */
  lemma DueIsKept(sys: Sys, delay: nat, call: Call, id: string)
    requires Inv(sys) && Fresh(sys, call)
    ensures id in sys.due ==> id in Step(sys, delay, call).due && Step(sys, delay, call).due[id] == sys.due[id]
    ensures Answer(sys.st, delay, call).1.Scheduled? ==>
      call.DoSchedule? && Step(sys, delay, call).due[call.id] == call.now + delay
  {
  }

  ghost function One(b: bool): nat {
    if b then 1 else 0
  }

  /** Every scheduled change is in exactly one place: in memory, in the store alone, in the log
      of what callers were told, once, or lost. Only scheduled changes are in any. */
  lemma EveryChangeAccounted(delay: nat, calls: seq<Call>, id: string)
    requires AllFresh(INITIAL, delay, calls)
    ensures var sys := Run(INITIAL, delay, calls);
      && One(InPending(sys, id)) + One(StoreOnly(sys, id)) + One(Logged(sys, id)) + One(Lost(sys, id))
          == One(id in sys.due)
      && (InPending(sys, id) ==> id in Ids(sys.st.stored))
      && forall i, j | 0 <= i < j < |sys.log| :: !(sys.log[i].id == sys.log[j].id == id)
  {
    InvRun(INITIAL, delay, calls);
    var sys := Run(INITIAL, delay, calls);
    Places(sys, id);
  }

  lemma Places(sys: Sys, id: string)
    requires Inv(sys)
    ensures InPending(sys, id) ==> id in Ids(sys.st.stored)
    ensures id in Ids(sys.st.stored) ==> id in sys.due && !Logged(sys, id)
    ensures Logged(sys, id) ==> id in sys.due
  {
    if id in Ids(sys.st.pending) {
      var c := IdOf(sys.st.pending, id);
      assert c in sys.st.stored;
    }
    if id in Ids(sys.st.stored) {
      var c := IdOf(sys.st.stored, id);
      forall i | 0 <= i < |sys.log| ensures sys.log[i].id != id {
        assert Honest(sys, sys.log[i]);
      }
    }
    if Logged(sys, id) {
      var i :| 0 <= i < |sys.log| && sys.log[i].id == id;
      assert Honest(sys, sys.log[i]);
    }
  }

  /** A change leaves memory only by a poll, a revocation of it, or a clear. If that call's
      write failed the store still has it; otherwise the caller was told, and which of the
      four things was said is by the call and the change's date. */
  lemma HowItLeft(sys: Sys, delay: nat, call: Call, c: Change)
    requires Inv(sys) && Fresh(sys, call) && c in sys.st.pending && c !in Step(sys, delay, call).st.pending
    ensures var next, r := Step(sys, delay, call), Answer(sys.st, delay, call).1;
      && (call.DoPoll? || (call.DoRevoke? && call.id == c.id) || call.DoClear?)
      && (r.Failed? ==> c in next.st.stored && next.log == sys.log)
      && (!r.Failed? ==> exists i :: |sys.log| <= i < |next.log| && TellsOf(call, c, next.log[i]))
  {
    ShapeOfAnswer(sys.st, delay, call);
    var next, r := Step(sys, delay, call), Answer(sys.st, delay, call).1;
    assert c in sys.st.stored;
    if r.Failed? {
      WhoFails(sys.st, delay, call, c);
    } else {
      var i := ToldOf(sys, delay, call, c);
      assert next.log[|sys.log| + i] == News(sys.st, call, r)[i];
    }
  }

  lemma WhoFails(st: State, delay: nat, call: Call, c: Change)
    requires Answer(st, delay, call).1.Failed? && c in st.pending && c !in Answer(st, delay, call).0.pending
    ensures call.DoPoll? || (call.DoRevoke? && call.id == c.id) || call.DoClear?
  {
    if call.DoRevoke? {
      WithoutFacts(st.pending, call.id);
    }
  }

  lemma ToldOf(sys: Sys, delay: nat, call: Call, c: Change) returns (i: nat)
    requires Inv(sys) && c in sys.st.pending && c !in Answer(sys.st, delay, call).0.pending
    requires !Answer(sys.st, delay, call).1.Failed?
    ensures var news := News(sys.st, call, Answer(sys.st, delay, call).1);
      i < |news| && TellsOf(call, c, news[i]) && (call.DoRevoke? ==> call.id == c.id)
  {
    ShapeOfAnswer(sys.st, delay, call);
    var (st, r) := Answer(sys.st, delay, call);
    assert c in sys.st.stored;
    match r
    case Effective(cs) =>
      assert c in cs;
      i :| 0 <= i < |cs| && cs[i] == c;
    case Cleared(_) => i :| 0 <= i < |sys.st.pending| && sys.st.pending[i] == c;
    case Revoked(id) =>
      var d :| d in sys.st.pending && d.id == id && call.now < d.scheduledAt;
      SameIdSame(sys.st.pending, c, d);
      i := 0;
    case AlreadyEffective(id) =>
      var d :| d in sys.st.pending && d.id == id && call.now >= d.scheduledAt;
      SameIdSame(sys.st.pending, c, d);
      i := 0;
  }

  /** The store and memory agree after every call that wrote or restarted, and stay in
      agreement until a write fails. */
  lemma StoreAgrees(sys: Sys, delay: nat, call: Call)
    ensures var (st, r) := Answer(sys.st, delay, call);
      && (Wrote(r) || r.Restarted? ==> st.stored == st.pending)
      && (sys.st.stored == sys.st.pending && !r.Failed? ==> st.stored == st.pending)
  {
    ShapeOfAnswer(sys.st, delay, call);
  }

  // ---- When a change is lost ---------------------------------------------

  lemma LostStays(sys: Sys, delay: nat, call: Call, id: string)
    requires Inv(sys) && Fresh(sys, call) && Lost(sys, id)
    ensures Lost(Step(sys, delay, call), id)
  {
    var next := Step(sys, delay, call);
    InvStep(sys, delay, call);
    Places(next, id);
    if id in Ids(next.st.stored) {
      var c := IdOf(next.st.stored, id);
      StoredOrigin(sys, delay, call, c);
      assert false;
    }
    NotNews(sys, delay, call, id);
  }

  /** Only what was in memory is told of. */
  lemma NotNews(sys: Sys, delay: nat, call: Call, id: string)
    requires Inv(sys) && id !in Ids(sys.st.pending)
    ensures Logged(Step(sys, delay, call), id) <==> Logged(sys, id)
  {
    var next, n := Step(sys, delay, call), |sys.log|;
    assert forall i | 0 <= i < n :: next.log[i] == sys.log[i];
    forall i | n <= i < |next.log| ensures next.log[i].id != id {
      var c := NewsIsTrue(sys, delay, call, i - n);
    }
  }

  /** A change that the store alone still has. */
  lemma StoreOnlyFate(sys: Sys, delay: nat, call: Call, id: string)
    requires Inv(sys) && Fresh(sys, call) && StoreOnly(sys, id)
    ensures Lost(Step(sys, delay, call), id) <==> Wrote(Answer(sys.st, delay, call).1)
  {
    var next, r := Step(sys, delay, call), Answer(sys.st, delay, call).1;
    ShapeOfAnswer(sys.st, delay, call);
    Places(sys, id);
    NotNews(sys, delay, call, id);
    InvStep(sys, delay, call);
    Places(next, id);
    if Wrote(r) {
      StoreOnlyDropped(sys, delay, call, id);
    }
  }

  lemma StoreOnlyDropped(sys: Sys, delay: nat, call: Call, id: string)
    requires Inv(sys) && Fresh(sys, call) && StoreOnly(sys, id) && Wrote(Answer(sys.st, delay, call).1)
    ensures id !in Ids(Step(sys, delay, call).st.stored)
  {
    ShapeOfAnswer(sys.st, delay, call);
    Places(sys, id);
    var (st, r) := Answer(sys.st, delay, call);
    forall c | c in st.stored ensures c.id != id {
      if r.Scheduled? {
        var d :| st.pending == sys.st.pending + [d] && d.id == r.id && d.scheduledAt == r.effectiveAt;
        assert c in sys.st.pending || c == d;
      }
    }
  }

  lemma PendingNotLost(sys: Sys, delay: nat, call: Call, id: string)
    requires Inv(sys) && Fresh(sys, call) && InPending(sys, id)
    ensures !Lost(Step(sys, delay, call), id)
  {
    var c := IdOf(sys.st.pending, id);
    var next := Step(sys, delay, call);
    if c !in next.st.pending {
      HowItLeft(sys, delay, call, c);
    }
  }

  /** A change that is in the store alone is lost to everyone, in neither list and in no
      reply, exactly by a call that reports success after writing; and no change is lost in
      any other way. */
  lemma LossExactly(sys: Sys, delay: nat, call: Call, id: string)
    requires Inv(sys) && Fresh(sys, call)
    ensures Lost(Step(sys, delay, call), id) <==>
      Lost(sys, id) || (StoreOnly(sys, id) && Wrote(Answer(sys.st, delay, call).1))
  {
    Places(sys, id);
    if Lost(sys, id) {
      LostStays(sys, delay, call, id);
    } else if StoreOnly(sys, id) {
      StoreOnlyFate(sys, delay, call, id);
    } else if InPending(sys, id) {
      PendingNotLost(sys, delay, call, id);
    } else {
      NewOrTold(sys, delay, call, id);
    }
  }

  lemma NewOrTold(sys: Sys, delay: nat, call: Call, id: string)
    requires Inv(sys) && Fresh(sys, call)
    requires Logged(sys, id) || id !in sys.due
    ensures !Lost(Step(sys, delay, call), id)
  {
    var next := Step(sys, delay, call);
    if Logged(sys, id) {
      var i :| 0 <= i < |sys.log| && sys.log[i].id == id;
      assert next.log[i] == sys.log[i];
    } else if id in next.due {
      ScheduleShape(sys.st, delay, call);
      var c :| next.st.pending == sys.st.pending + [c] && c.id == id;
      assert c in next.st.pending;
    }
  }

  ghost predicate NoneLost(sys: Sys) {
    forall id :: !Lost(sys, id)
  }

  ghost predicate NoneStoreOnly(sys: Sys) {
    forall id :: !StoreOnly(sys, id)
  }

  /** No call writes while the store alone has some change: after a failed removal, restart
      first. */
  ghost predicate Careful(sys: Sys, delay: nat, calls: seq<Call>)
    decreases |calls|
  {
    calls == [] || (
      && (Wrote(Answer(sys.st, delay, calls[0]).1) ==> NoneStoreOnly(sys))
      && Careful(Step(sys, delay, calls[0]), delay, calls[1..]))
  }

  lemma LossStep(sys: Sys, delay: nat, call: Call)
    requires Inv(sys) && Fresh(sys, call) && NoneLost(sys)
    ensures NoneLost(Step(sys, delay, call)) <==> (Wrote(Answer(sys.st, delay, call).1) ==> NoneStoreOnly(sys))
  {
    forall id ensures Lost(Step(sys, delay, call), id) <==>
        StoreOnly(sys, id) && Wrote(Answer(sys.st, delay, call).1) {
      LossExactly(sys, delay, call, id);
    }
  }

  lemma {:induction false} LostForGood(sys: Sys, delay: nat, calls: seq<Call>, id: string)
    requires Inv(sys) && AllFresh(sys, delay, calls) && Lost(sys, id)
    ensures Lost(Run(sys, delay, calls), id)
    decreases |calls|
  {
    if calls != [] {
      InvStep(sys, delay, calls[0]);
      LostStays(sys, delay, calls[0], id);
      LostForGood(Step(sys, delay, calls[0]), delay, calls[1..], id);
    }
  }

  /** A run loses nothing exactly when it is careful. */
  lemma {:induction false} NothingLostExactly(sys: Sys, delay: nat, calls: seq<Call>)
    requires Inv(sys) && AllFresh(sys, delay, calls) && NoneLost(sys)
    ensures NoneLost(Run(sys, delay, calls)) <==> Careful(sys, delay, calls)
    decreases |calls|
  {
    if calls != [] {
      var next := Step(sys, delay, calls[0]);
      InvStep(sys, delay, calls[0]);
      LossStep(sys, delay, calls[0]);
      if NoneLost(next) {
        NothingLostExactly(next, delay, calls[1..]);
      } else {
        var id :| Lost(next, id);
        LostForGood(next, delay, calls[1..], id);
      }
    }
  }

  // ---- What is answered --------------------------------------------------

  /** A change is scheduled exactly for a named agent and a store that writes, and is what was
      asked for, due one delay on. */
  lemma ScheduledExactly(st: State, delay: nat, id: string, agentId: string, policy: Policy, now: int, ok: bool)
    ensures var (st', r) := Answer(st, delay, DoSchedule(id, agentId, policy, now, ok));
      if agentId != "" && ok
      then r == Scheduled(id, now + delay) && st'.stored == st'.pending
           && st'.pending == st.pending + [Change(id, agentId, policy, now + delay, now)]
      else r == (if agentId == "" then Invalid else Failed) && st' == st
  {
  }

  /** A revocation finds exactly a pending change, takes out all of that name, and answers by
      its date once the store has written. */
  lemma RevokedExactly(st: State, delay: nat, id: string, now: int, ok: bool)
    requires Distinct(st.pending)
    ensures var (st', r) := Answer(st, delay, DoRevoke(id, now, ok));
      && (r == Invalid <==> id == "")
      && (r == NotFound <==> id != "" && forall c | c in st.pending :: c.id != id)
      && (r == Failed <==> id != "" && !ok && exists c | c in st.pending :: c.id == id)
      && (r == Revoked(id) <==> id != "" && ok && exists c | c in st.pending :: c.id == id && now < c.scheduledAt)
      && (r == AlreadyEffective(id) <==>
            id != "" && ok && exists c | c in st.pending :: c.id == id && now >= c.scheduledAt)
      && (forall c :: c in st'.pending <==> c in st.pending && (c.id != id || id == ""))
      && st'.stored == if Wrote(r) then st'.pending else st.stored
  {
    WithoutFacts(st.pending, id);
    var c := Find(st.pending, id);
    if c.Some? {
      forall d | d in st.pending && d.id == id ensures d == c.value {
        SameIdSame(st.pending, c.value, d);
      }
    }
  }

  lemma NobodyIn(cs: seq<Change>)
    ensures cs == [] <==> forall c :: c !in cs
  {
    if cs != [] {
      assert cs[0] in cs;
    }
  }

  /** A poll hands over exactly what is due, in one answer, and keeps exactly the rest; only a
      store that fails keeps the answer back. */
  lemma PolledExactly(st: State, delay: nat, now: int, ok: bool)
    ensures var (st', r) := Answer(st, delay, DoPoll(now, ok));
      var someDue := exists c | c in st.pending :: now >= c.scheduledAt;
      && (forall c :: c in st'.pending <==> c in st.pending && now < c.scheduledAt)
      && (if someDue && !ok then r == Failed
          else r.Effective? && forall c :: c in r.changes <==> c in st.pending && now >= c.scheduledAt)
      && st'.stored == if someDue && ok then st'.pending else st.stored
  {
    DueFacts(st.pending, now);
    if forall c | c in st.pending :: now < c.scheduledAt {
      NobodyIn(Due(st.pending, now));
    } else {
      var c :| c in st.pending && now >= c.scheduledAt;
      assert c in Due(st.pending, now);
    }
  }

  /** Clearing leaves nothing, in the store too once that has written; a restart takes over
      what the store has. */
  lemma ClearedExactly(st: State, delay: nat, ok: bool)
    ensures var (st', r) := Answer(st, delay, DoClear(ok));
      && st'.pending == []
      && r == (if st.pending != [] && !ok then Failed else Cleared(|st.pending|))
      && st'.stored == if st.pending != [] && ok then [] else st.stored
    ensures Answer(st, delay, DoRestart).0 == State(st.stored, st.stored)
  {
  }

  // ---- What changes hold -------------------------------------------------

  /** Some call asked for the change as it is. */
  ghost predicate AskedFor(calls: seq<Call>, delay: nat, c: Change) {
    c.scheduledAt == c.createdAt + delay && DoSchedule(c.id, c.agentId, c.policy, c.createdAt, true) in calls
  }

  ghost predicate AllAskedFor(calls: seq<Call>, delay: nat, st: State) {
    forall c | c in st.pending || c in st.stored :: AskedFor(calls, delay, c)
  }

  lemma AskedStep(past: seq<Call>, delay: nat, sys: Sys, call: Call)
    requires AllAskedFor(past, delay, sys.st)
    ensures AllAskedFor(past + [call], delay, Step(sys, delay, call).st)
  {
    match call
    case DoSchedule(id, agentId, policy, now, ok) =>
      ScheduledExactly(sys.st, delay, id, agentId, policy, now, ok);
      var c := Change(id, agentId, policy, now + delay, now);
      assert call in past + [call];
    case DoRevoke(id, now, ok) => WithoutFacts(sys.st.pending, id);
    case DoPoll(now, ok) => DueFacts(sys.st.pending, now);
    case DoClear(ok) =>
    case DoRestart =>
  }

  lemma {:induction false} AskedRun(past: seq<Call>, delay: nat, sys: Sys, calls: seq<Call>)
    requires AllAskedFor(past, delay, sys.st)
    ensures AllAskedFor(past + calls, delay, Run(sys, delay, calls).st)
    decreases |calls|
  {
    if calls == [] {
      assert past + calls == past;
    } else {
      AskedStep(past, delay, sys, calls[0]);
      AskedRun(past + [calls[0]], delay, Step(sys, delay, calls[0]), calls[1..]);
      assert past + [calls[0]] + calls[1..] == past + calls;
    }
  }

  /** In every run, failures and restarts included, every change held, stored or handed over
      has the agent, the policy and the time some call scheduled it with. */
  lemma ChangesAreAsAsked(delay: nat, calls: seq<Call>, now: int, ok: bool)
    ensures var sys := Run(INITIAL, delay, calls); var r := Answer(sys.st, delay, DoPoll(now, ok)).1;
      && AllAskedFor(calls, delay, sys.st)
      && (r.Effective? ==> forall c | c in r.changes :: AskedFor(calls, delay, c))
  {
    AskedRun([], delay, INITIAL, calls);
    assert [] + calls == calls;
    DueFacts(Run(INITIAL, delay, calls).st.pending, now);
  }
}
