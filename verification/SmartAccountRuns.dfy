/**
 Every run of a smart account, with the money it moved. Calls may be whole or suspended at
 the signature check; commits are recorded with the clock reading they settled under, the
 time they were made, the window and the per-transaction ceiling.
 */
module SmartAccountRuns {
  import opened Common
  import opened SmartAccount

  datatype Event =
    | DoRegister(caller: string, id: string, r: Registration, now: int)
    | DoRevoke(caller: string, id: string)
    | DoSwitch(caller: string, w: Switch)
    | DoReduce(caller: string, id: string, perTx: Numeral, daily: Numeral)
    | DoPreview(req: Request, now: int)
    | DoExecute(req: Request, now: int)
    | DoBegin(req: Request, now: int)
    | DoFinish(call: Suspended, at: int)

  datatype Entry = Entry(id: string, nonce: nat, amount: nat, at: int, madeAt: int, window: int, perTx: nat)

  /** `granted` remembers the daily ceiling each session was registered with. */
  datatype Sys = Sys(a: Account, inflight: multiset<Suspended>, commits: seq<Entry>, granted: map<string, nat>)

  const INITIAL := Sys(FRESH, multiset{}, [], map[])

  /** The account after a call that may commit, and the clock reading it settled under. */
  function Settled(cfg: Config, sys: Sys, next: (Account, Result<Receipt, Reason>), now: int, madeAt: int): Sys {
    if next.1.Err? || next.1.value.sessionId !in sys.a.sessions || next.0.windowStart.None? then sys.(a := next.0)
    else
      var r := next.1.value;
      sys.(a := next.0, commits := sys.commits + [
        Entry(r.sessionId, r.nonce, r.amount, now, madeAt,
            next.0.windowStart.value, sys.a.sessions[r.sessionId].maxPerTx)])
  }

  function Step(cfg: Config, sys: Sys, e: Event): Sys {
    match e
    case DoRegister(caller, id, r, now) =>
      var (a, res) := Register(cfg, sys.a, caller, id, r, now);
      if res.Ok? then sys.(a := a, granted := sys.granted[id := Ceiling(r.maxDaily).value]) else sys
    case DoRevoke(caller, id) => sys.(a := Revoke(cfg, sys.a, caller, id).0)
    case DoSwitch(caller, w) => sys.(a := Flip(cfg, sys.a, caller, w).0)
    case DoReduce(caller, id, perTx, daily) => sys.(a := Reduce(cfg, sys.a, caller, id, perTx, daily).0)
    case DoPreview(req, now) => sys.(a := Preview(cfg, sys.a, req, now).0)
    case DoExecute(req, now) => Settled(cfg, sys, Execute(cfg, sys.a, req, now), now, now)
    case DoBegin(req, now) =>
      var s := Begin(cfg, sys.a, req, now);
      if s.Ok? then sys.(inflight := sys.inflight + multiset{s.value}) else sys
    case DoFinish(call, at) =>
      if call !in sys.inflight || call.req.sessionId !in sys.a.sessions || call.req.payload.None? then sys
      else
        var resumed := sys.(inflight := sys.inflight - multiset{call});
        Settled(cfg, resumed, Finish(cfg, sys.a, call, at), call.startedAt, at)
  }

  function Run(cfg: Config, sys: Sys, es: seq<Event>): Sys
    decreases |es|
  {
    if es == [] then sys else Run(cfg, Step(cfg, sys, es[0]), es[1..])
  }

  // ---- Sums over commits -------------------------------------------------

  function SpentBy(cs: seq<Entry>, id: string): nat {
    if cs == [] then 0 else
      SpentBy(cs[..|cs| - 1], id) + if cs[|cs| - 1].id == id then cs[|cs| - 1].amount else 0
  }

  function SpentIn(cs: seq<Entry>, window: int): nat {
    if cs == [] then 0 else
      SpentIn(cs[..|cs| - 1], window) + if cs[|cs| - 1].window == window then cs[|cs| - 1].amount else 0
  }

  /** Everything committed at clock readings from `from` to `to`, both included. */
  function SpentBetween(cs: seq<Entry>, from: int, to: int): nat {
    if cs == [] then 0 else
      SpentBetween(cs[..|cs| - 1], from, to)
      + if from <= cs[|cs| - 1].at <= to then cs[|cs| - 1].amount else 0
  }

  lemma PushCommit(cs: seq<Entry>, c: Entry, id: string, window: int)
    ensures SpentBy(cs + [c], id) == SpentBy(cs, id) + if c.id == id then c.amount else 0
    ensures SpentIn(cs + [c], window) == SpentIn(cs, window) + if c.window == window then c.amount else 0
  {
    assert (cs + [c])[..|cs|] == cs;
  }

  // ---- The three kinds of step -------------------------------------------

  datatype Kind =
    | Silent
    | Registered(id: string)
    | Committed(id: string, nonce: nat, amount: nat, now: int, madeAt: int)

  /** The clock reading a step may roll the window with. */
  function Reading(e: Event): Option<int> {
    match e
    case DoPreview(_, now) => Some(now)
    case DoExecute(_, now) => Some(now)
    case DoFinish(call, _) => Some(call.startedAt)
    case _ => None
  }

  /** No money moves, no ceiling rises, nobody is reactivated. */
  ghost predicate Quiet(a: Account, b: Account) {
    && b.sessions.Keys == a.sessions.Keys
    && forall id | id in a.sessions :: QuietSession(a.sessions[id], b.sessions[id])
  }

  ghost predicate QuietSession(s: Session, t: Session) {
    && t.spent == s.spent && t.lastNonce == s.lastNonce && t.expiresAt == s.expiresAt
    && t.maxDaily <= s.maxDaily && t.maxPerTx <= s.maxPerTx && (t.active ==> s.active)
  }

  ghost predicate SameWindow(a: Account, b: Account) {
    b.windowStart == a.windowStart && b.spentInWindow == a.spentInWindow
  }

  ghost predicate IsSilent(cfg: Config, sys: Sys, sys': Sys, reading: Option<int>) {
    && sys'.commits == sys.commits && sys'.granted == sys.granted
    && Quiet(sys.a, sys'.a)
    && (SameWindow(sys.a, sys'.a)
        || (cfg.policy.Limited? && reading.Some? && SameWindow(Roll(cfg, sys.a, reading.value), sys'.a)))
  }

  ghost predicate IsRegistration(sys: Sys, sys': Sys, id: string) {
    && id !in sys.a.sessions && id in sys'.a.sessions
    && sys'.a == sys.a.(sessions := sys.a.sessions[id := sys'.a.sessions[id]])
    && sys'.a.sessions[id].spent == sys'.a.sessions[id].lastNonce == 0
    && sys'.granted == sys.granted[id := sys'.a.sessions[id].maxDaily]
    && sys'.commits == sys.commits
  }

  ghost predicate IsCommit(cfg: Config, sys: Sys, sys': Sys, k: Kind)
    requires k.Committed?
  {
    var b := Rolled(cfg, sys.a, k.now);
    && k.id in sys.a.sessions
    && k.amount <= sys.a.sessions[k.id].maxPerTx
    && sys.a.sessions[k.id].spent + k.amount <= sys.a.sessions[k.id].maxDaily
    && (cfg.policy.Limited? ==> b.spentInWindow + k.amount <= cfg.policy.maxDaily)
    && sys'.a == Commit(cfg, b, k.id, k.nonce, k.amount, k.now)
    && sys'.commits == sys.commits + [
        Entry(k.id, k.nonce, k.amount, k.now, k.madeAt, sys'.a.windowStart.value, sys.a.sessions[k.id].maxPerTx)]
    && sys'.granted == sys.granted
  }

  ghost predicate IsStep(cfg: Config, sys: Sys, sys': Sys, reading: Option<int>, k: Kind) {
    match k
    case Silent => IsSilent(cfg, sys, sys', reading)
    case Registered(id) => IsRegistration(sys, sys', id)
    case Committed(_, _, _, now, _) => IsCommit(cfg, sys, sys', k) && reading == Some(now)
  }

  /** What the admission checks of an uninterrupted commit established. */
  ghost predicate Live(a: Account, id: string, nonce: nat, now: int) {
    && id in a.sessions && !a.frozen && !a.paused
    && a.sessions[id].active && now < a.sessions[id].expiresAt && a.sessions[id].lastNonce < nonce
  }

  /** What is still checked of a resumed call: its signature has not outlived the session. */
  ghost predicate Resumes(sys: Sys, call: Suspended, at: int, k: Kind)
    requires k.Committed?
  {
    && call in sys.inflight && call.req.sessionId == k.id && call.nonce == k.nonce && k.madeAt == at
    && call.req.payload.Some? && at < call.req.payload.value.expiresAt
  }

  lemma ClassifySettle(cfg: Config, sys: Sys, id: string, nonce: nat, amount: nat, now: int, madeAt: int)
    returns (k: Kind)
    requires id in sys.a.sessions
    ensures IsStep(cfg, sys, Settled(cfg, sys, Settle(cfg, sys.a, id, nonce, amount, now, false), now, madeAt),
        Some(now), k)
    ensures k.Silent? || k == Committed(id, nonce, amount, now, madeAt)
  {
    if Settle(cfg, sys.a, id, nonce, amount, now, false).1.Ok? {
      k := Committed(id, nonce, amount, now, madeAt);
    } else {
      k := Silent;
    }
  }

  lemma ClassifyExecute(cfg: Config, sys: Sys, req: Request, now: int) returns (k: Kind)
    ensures IsStep(cfg, sys, Step(cfg, sys, DoExecute(req, now)), Some(now), k)
    ensures !k.Registered?
    ensures k.Committed? ==> Live(sys.a, k.id, k.nonce, now) && k.now == k.madeAt == now
  {
    var nonce := Admit(cfg, sys.a, req, now);
    if nonce.Ok? && Bind(sys.a.sessions[req.sessionId], req, now).Ok? {
      var amount := Bind(sys.a.sessions[req.sessionId], req, now).value;
      AdmittedIsLive(cfg, sys.a, req, now);
      k := ClassifySettle(cfg, sys, req.sessionId, nonce.value, amount, now, now);
    } else {
      k := Silent;
    }
  }

  lemma AdmittedIsLive(cfg: Config, a: Account, req: Request, now: int)
    requires Admit(cfg, a, req, now).Ok?
    ensures Live(a, req.sessionId, Admit(cfg, a, req, now).value, now)
  {
  }

  lemma ClassifyPreview(cfg: Config, sys: Sys, req: Request, now: int)
    ensures IsSilent(cfg, sys, Step(cfg, sys, DoPreview(req, now)), Some(now))
  {
  }

  lemma ClassifyFinish(cfg: Config, sys: Sys, call: Suspended, at: int) returns (k: Kind)
    ensures IsStep(cfg, sys, Step(cfg, sys, DoFinish(call, at)), Some(call.startedAt), k)
    ensures !k.Registered?
    ensures k.Committed? ==> Resumes(sys, call, at, k)
  {
    k := Silent;
    if call in sys.inflight && call.req.sessionId in sys.a.sessions && call.req.payload.Some? {
      var resumed := sys.(inflight := sys.inflight - multiset{call});
      if BindSignature(call.req, at).Ok? {
        k := ClassifySettle(cfg, resumed, call.req.sessionId, call.nonce,
            BindSignature(call.req, at).value, call.startedAt, at);
      }
    }
  }

  lemma ReduceIsQuiet(cfg: Config, a: Account, caller: string, id: string, perTx: Numeral, daily: Numeral)
    ensures Quiet(a, Reduce(cfg, a, caller, id, perTx, daily).0)
    ensures SameWindow(a, Reduce(cfg, a, caller, id, perTx, daily).0)
  {
    var b := Reduce(cfg, a, caller, id, perTx, daily).0;
    if id in a.sessions {
      ReducedSession(cfg, a, caller, id, perTx, daily);
    }
    forall other | other in a.sessions
      ensures other in b.sessions && QuietSession(a.sessions[other], b.sessions[other])
    {
    }
  }

  lemma ReducedSession(cfg: Config, a: Account, caller: string, id: string, perTx: Numeral, daily: Numeral)
    requires id in a.sessions
    ensures var b := Reduce(cfg, a, caller, id, perTx, daily).0;
      id in b.sessions && b == a.(sessions := a.sessions[id := b.sessions[id]])
          && QuietSession(a.sessions[id], b.sessions[id])
  {
    assert a.sessions[id := a.sessions[id]] == a.sessions;
  }

  lemma ClassifyRegister(cfg: Config, sys: Sys, e: Event) returns (k: Kind)
    requires e.DoRegister?
    ensures IsStep(cfg, sys, Step(cfg, sys, e), None, k)
    ensures !k.Committed?
  {
    k := if Register(cfg, sys.a, e.caller, e.id, e.r, e.now).1.Ok? then Registered(e.id) else Silent;
  }

  lemma Classify(cfg: Config, sys: Sys, e: Event) returns (k: Kind)
    ensures IsStep(cfg, sys, Step(cfg, sys, e), Reading(e), k)
    ensures k.Committed? ==> e.DoExecute? || e.DoFinish?
    ensures k.Committed? && e.DoExecute? ==> Live(sys.a, k.id, k.nonce, k.now) && k.madeAt == k.now
    ensures k.Committed? && e.DoFinish? ==> Resumes(sys, e.call, e.at, k)
  {
    match e
    case DoExecute(req, now) => k := ClassifyExecute(cfg, sys, req, now);
    case DoPreview(req, now) =>
      ClassifyPreview(cfg, sys, req, now);
      k := Silent;
    case DoFinish(call, at) => k := ClassifyFinish(cfg, sys, call, at);
    case DoRegister(_, _, _, _) => k := ClassifyRegister(cfg, sys, e);
    case DoReduce(_, _, _, _) =>
      ReduceIsQuiet(cfg, sys.a, e.caller, e.id, e.perTx, e.daily);
      k := Silent;
    case _ => k := Silent;
  }

  // ---- Lifetime accounting, suspended calls included ----------------------

  ghost predicate Accounts(sys: Sys, id: string)
    requires id in sys.a.sessions
  {
    var s := sys.a.sessions[id];
    id in sys.granted && s.spent == SpentBy(sys.commits, id) <= sys.granted[id] && s.maxDaily <= sys.granted[id]
  }

  ghost predicate Accounted(sys: Sys) {
    && (forall id | id in sys.a.sessions :: Accounts(sys, id))
    && (forall c | c in sys.commits :: c.id in sys.a.sessions && c.amount <= c.perTx)
  }

  lemma {:induction false} NothingSpentBy(cs: seq<Entry>, id: string)
    requires forall c | c in cs :: c.id != id
    ensures SpentBy(cs, id) == 0
    decreases |cs|
  {
    if cs != [] {
      assert cs[|cs| - 1] in cs;
      NothingSpentBy(cs[..|cs| - 1], id);
    }
  }

  lemma AccountedStep(cfg: Config, sys: Sys, sys': Sys, reading: Option<int>, k: Kind)
    requires Accounted(sys) && IsStep(cfg, sys, sys', reading, k)
    ensures Accounted(sys')
  {
    if k.Registered? {
      NothingSpentBy(sys.commits, k.id);
    }
    forall id | id in sys'.a.sessions ensures Accounts(sys', id) {
      if id in sys.a.sessions {
        assert Accounts(sys, id);
        if k.Committed? {
          PushCommit(sys.commits, sys'.commits[|sys.commits|], id, 0);
        } else if k.Silent? {
          assert QuietSession(sys.a.sessions[id], sys'.a.sessions[id]);
        }
      }
    }
  }

  lemma {:induction false} AccountedRun(cfg: Config, sys: Sys, es: seq<Event>)
    requires Accounted(sys)
    ensures Accounted(Run(cfg, sys, es))
    decreases |es|
  {
    if es != [] {
      var next := Step(cfg, sys, es[0]);
      var k := Classify(cfg, sys, es[0]);
      AccountedStep(cfg, sys, next, Reading(es[0]), k);
      AccountedRun(cfg, next, es[1..]);
    }
  }

  /** In every run, suspended calls and half-failed reductions included: a session has spent
      exactly its commits, never more than the daily ceiling it was registered with, and no
      commit exceeded the per-transaction ceiling it met. */
  lemma LifetimeSpend(cfg: Config, es: seq<Event>, id: string)
    requires id in Run(cfg, INITIAL, es).a.sessions
    ensures var sys := Run(cfg, INITIAL, es);
      && sys.a.sessions[id].spent == SpentBy(sys.commits, id)
      && id in sys.granted && SpentBy(sys.commits, id) <= sys.granted[id]
      && forall c | c in sys.commits :: c.amount <= c.perTx
  {
    AccountedRun(cfg, INITIAL, es);
    assert Accounts(Run(cfg, INITIAL, es), id);
  }

  // ---- Uninterrupted calls: nonces, expiry, revocation ---------------------

  /** A run of uninterrupted calls whose clock readings never go back. */
  ghost predicate Atomic(es: seq<Event>, clock: int)
    decreases |es|
  {
    es == [] || (
      && !es[0].DoBegin? && !es[0].DoFinish?
      && (Reading(es[0]).Some? ==> clock <= Reading(es[0]).value)
      && Atomic(es[1..], Later(clock, es[0])))
  }

  /** A run of uninterrupted calls. */
  predicate Uninterrupted(es: seq<Event>) {
    es == [] || (!es[0].DoBegin? && !es[0].DoFinish? && Uninterrupted(es[1..]))
  }

  function Later(clock: int, e: Event): int {
    if Reading(e).Some? then Reading(e).value else clock
  }

  ghost predicate NoncesAscend(sys: Sys) {
    && (forall i, j | 0 <= i < j < |sys.commits| && sys.commits[i].id == sys.commits[j].id ::
          sys.commits[i].nonce < sys.commits[j].nonce)
    && (forall c | c in sys.commits :: c.id in sys.a.sessions
          && c.nonce <= sys.a.sessions[c.id].lastNonce && c.at < sys.a.sessions[c.id].expiresAt)
  }

  lemma NoncesStep(cfg: Config, sys: Sys, sys': Sys, reading: Option<int>, k: Kind)
    requires NoncesAscend(sys) && IsStep(cfg, sys, sys', reading, k)
    requires k.Committed? ==> Live(sys.a, k.id, k.nonce, k.now)
    ensures NoncesAscend(sys')
  {
    if k.Silent? {
      forall c | c in sys'.commits ensures c.id in sys'.a.sessions
          && c.nonce <= sys'.a.sessions[c.id].lastNonce && c.at < sys'.a.sessions[c.id].expiresAt {
        assert QuietSession(sys.a.sessions[c.id], sys'.a.sessions[c.id]);
      }
    } else if k.Committed? {
      forall i | 0 <= i < |sys.commits| ensures sys.commits[i].id == k.id ==> sys.commits[i].nonce < k.nonce {
        assert sys.commits[i] in sys.commits;
      }
    }
  }

  lemma {:induction false} NoncesRun(cfg: Config, sys: Sys, es: seq<Event>)
    requires NoncesAscend(sys) && Uninterrupted(es)
    ensures NoncesAscend(Run(cfg, sys, es))
    decreases |es|
  {
    if es != [] {
      var next := Step(cfg, sys, es[0]);
      var k := Classify(cfg, sys, es[0]);
      NoncesStep(cfg, sys, next, Reading(es[0]), k);
      NoncesRun(cfg, next, es[1..]);
    }
  }

  /** Uninterrupted calls, whatever the clock: a session's nonces strictly increase in commit
      order, and every commit precedes the session's expiry. */
  lemma NoncesSingleUse(cfg: Config, es: seq<Event>, i: nat, j: nat)
    requires Uninterrupted(es) && i < j < |Run(cfg, INITIAL, es).commits|
    ensures var cs := Run(cfg, INITIAL, es).commits;
      && (cs[i].id == cs[j].id ==> cs[i].nonce < cs[j].nonce)
      && cs[j].id in Run(cfg, INITIAL, es).a.sessions
      && cs[j].at < Run(cfg, INITIAL, es).a.sessions[cs[j].id].expiresAt
  {
    NoncesRun(cfg, INITIAL, es);
    assert Run(cfg, INITIAL, es).commits[j] in Run(cfg, INITIAL, es).commits;
  }

  /** The commits of one session, in order. */
  function Of(cs: seq<Entry>, id: string): seq<Entry> {
    if cs == [] then [] else
      Of(cs[..|cs| - 1], id) + if cs[|cs| - 1].id == id then [cs[|cs| - 1]] else []
  }

  lemma PushOf(cs: seq<Entry>, c: Entry, id: string)
    ensures Of(cs + [c], id) == Of(cs, id) + if c.id == id then [c] else []
  {
    assert (cs + [c])[..|cs|] == cs;
  }

  /** A step that is no commit of this session leaves it as revoked as it was. */
  lemma RevokedStep(cfg: Config, sys: Sys, sys': Sys, reading: Option<int>, k: Kind, id: string)
    requires IsStep(cfg, sys, sys', reading, k) && id in sys.a.sessions
    ensures id in sys'.a.sessions && (sys'.a.sessions[id].active ==> sys.a.sessions[id].active)
    ensures !(k.Committed? && k.id == id) ==> Of(sys'.commits, id) == Of(sys.commits, id)
    ensures k.Committed? && k.id == id ==> |Of(sys'.commits, id)| == |Of(sys.commits, id)| + 1
  {
    if k.Committed? {
      PushOf(sys.commits, sys'.commits[|sys.commits|], id);
    } else if k.Silent? {
      assert QuietSession(sys.a.sessions[id], sys'.a.sessions[id]);
    }
  }

  /** Once revoked, a session never commits again, whatever uninterrupted calls follow. */
  lemma {:induction false} RevokedStaysQuiet(cfg: Config, sys: Sys, es: seq<Event>, id: string)
    requires Uninterrupted(es) && id in sys.a.sessions && !sys.a.sessions[id].active
    ensures var sys' := Run(cfg, sys, es);
      && id in sys'.a.sessions && !sys'.a.sessions[id].active
      && Of(sys'.commits, id) == Of(sys.commits, id)
    decreases |es|
  {
    if es != [] {
      var next := Step(cfg, sys, es[0]);
      var k := Classify(cfg, sys, es[0]);
      RevokedStep(cfg, sys, next, Reading(es[0]), k, id);
      RevokedStaysQuiet(cfg, next, es[1..], id);
    }
  }

  // ---- The tumbling window -----------------------------------------------

  ghost predicate Capped(cfg: Config) {
    cfg.policy.Limited? && cfg.dayWindowMs > 0
  }

  ghost predicate CommitFits(cfg: Config, c: Entry, clock: int) {
    c.window <= c.at < c.window + cfg.dayWindowMs && c.at <= clock
  }

  /** Two commits of one window, or of windows at least a window length apart. */
  ghost predicate Apart(cfg: Config, v: int, w: int) {
    v == w || v + cfg.dayWindowMs <= w || w + cfg.dayWindowMs <= v
  }

  ghost predicate WindowMatches(cfg: Config, sys: Sys, clock: int) {
    match sys.a.windowStart
    case None => sys.commits == []
    case Some(w) => w <= clock && forall c | c in sys.commits :: c.window == w || c.window + cfg.dayWindowMs <= w
  }

  ghost predicate Windowed(cfg: Config, sys: Sys, clock: int)
    requires Capped(cfg)
  {
    && WindowMatches(cfg, sys, clock)
    && (forall c | c in sys.commits :: CommitFits(cfg, c, clock))
    && (forall c, d | c in sys.commits && d in sys.commits :: Apart(cfg, c.window, d.window))
  }

  /** What one window holds, in every run: windows are only left for later ones. */
  ghost predicate SumsMatch(sys: Sys) {
    match sys.a.windowStart
    case None => sys.commits == [] && sys.a.spentInWindow == 0
    case Some(w) => sys.a.spentInWindow == SpentIn(sys.commits, w) && forall c | c in sys.commits :: c.window <= w
  }

  ghost predicate SumsCapped(cfg: Config, sys: Sys)
    requires Capped(cfg)
  {
    SumsMatch(sys) && forall w :: SpentIn(sys.commits, w) <= cfg.policy.maxDaily
  }

  lemma {:induction false} NothingSpentIn(cs: seq<Entry>, w: int)
    requires forall c | c in cs :: c.window != w
    ensures SpentIn(cs, w) == 0
    decreases |cs|
  {
    if cs != [] {
      assert cs[|cs| - 1] in cs;
      NothingSpentIn(cs[..|cs| - 1], w);
    }
  }

  lemma RollKeepsWindowed(cfg: Config, sys: Sys, clock: int, t: int)
    requires Capped(cfg) && Windowed(cfg, sys, clock) && clock <= t
    ensures Windowed(cfg, sys.(a := Roll(cfg, sys.a, t)), t)
  {
  }

  lemma RollKeepsSums(cfg: Config, sys: Sys, t: int)
    requires Capped(cfg) && SumsCapped(cfg, sys)
    ensures SumsCapped(cfg, sys.(a := Roll(cfg, sys.a, t)))
  {
    if WindowOver(cfg, sys.a, t) {
      NothingSpentIn(sys.commits, t);
    }
  }

  /** The window a commit at `now` belongs to, once the roll has been done. */
  function CurrentWindow(a: Account, now: int): int {
    if a.windowStart.None? then now else a.windowStart.value
  }

  lemma CommitKeepsSums(cfg: Config, sys: Sys, c: Entry, now: int)
    requires Capped(cfg) && SumsCapped(cfg, sys)
    requires sys.a.spentInWindow + c.amount <= cfg.policy.maxDaily && c.window == CurrentWindow(sys.a, now)
    ensures var a := sys.a.(windowStart := Some(c.window), spentInWindow := sys.a.spentInWindow + c.amount);
      SumsCapped(cfg, sys.(a := a, commits := sys.commits + [c]))
  {
    forall w ensures SpentIn(sys.commits + [c], w) <= cfg.policy.maxDaily {
      PushCommit(sys.commits, c, "", w);
    }
    PushCommit(sys.commits, c, "", c.window);
  }

  /** SumsCapped looks at nothing but the window and the commits. */
  lemma SumsDepend(cfg: Config, sys: Sys, sys': Sys)
    requires Capped(cfg) && SumsCapped(cfg, sys) && SameWindow(sys.a, sys'.a) && sys'.commits == sys.commits
    ensures SumsCapped(cfg, sys')
  {
  }

  lemma SumsCommit(cfg: Config, sys: Sys, sys': Sys, k: Kind)
    requires Capped(cfg) && SumsCapped(cfg, sys) && k.Committed? && IsCommit(cfg, sys, sys', k)
    ensures SumsCapped(cfg, sys')
  {
    var c, rolled := sys'.commits[|sys.commits|], sys.(a := Roll(cfg, sys.a, k.now));
    RollKeepsSums(cfg, sys, k.now);
    CommitKeepsSums(cfg, rolled, c, k.now);
    var a := rolled.a.(windowStart := Some(c.window), spentInWindow := rolled.a.spentInWindow + c.amount);
    SumsDepend(cfg, rolled.(a := a, commits := sys.commits + [c]), sys');
  }

  lemma SumsSilent(cfg: Config, sys: Sys, sys': Sys, reading: Option<int>)
    requires Capped(cfg) && SumsCapped(cfg, sys) && IsSilent(cfg, sys, sys', reading)
    ensures SumsCapped(cfg, sys')
  {
    if SameWindow(sys.a, sys'.a) {
      SumsDepend(cfg, sys, sys');
    } else {
      RollKeepsSums(cfg, sys, reading.value);
      SumsDepend(cfg, sys.(a := Roll(cfg, sys.a, reading.value)), sys');
    }
  }

  lemma SumsStep(cfg: Config, sys: Sys, sys': Sys, reading: Option<int>, k: Kind)
    requires Capped(cfg) && SumsCapped(cfg, sys) && IsStep(cfg, sys, sys', reading, k)
    ensures SumsCapped(cfg, sys')
  {
    match k
    case Silent => SumsSilent(cfg, sys, sys', reading);
    case Registered(id) => SumsDepend(cfg, sys, sys');
    case Committed(_, _, _, _, _) => SumsCommit(cfg, sys, sys', k);
  }

  lemma {:induction false} SumsRun(cfg: Config, sys: Sys, es: seq<Event>)
    requires Capped(cfg) && SumsCapped(cfg, sys)
    ensures SumsCapped(cfg, Run(cfg, sys, es))
    decreases |es|
  {
    if es != [] {
      var k := Classify(cfg, sys, es[0]);
      SumsStep(cfg, sys, Step(cfg, sys, es[0]), Reading(es[0]), k);
      SumsRun(cfg, Step(cfg, sys, es[0]), es[1..]);
    }
  }

  /** Under a limited policy the commits of one window stay within the daily ceiling in every
      run, suspended calls and clocks that run back included. */
  lemma WindowCeiling(cfg: Config, es: seq<Event>, window: int)
    requires Capped(cfg)
    ensures SpentIn(Run(cfg, INITIAL, es).commits, window) <= cfg.policy.maxDaily
  {
    SumsRun(cfg, INITIAL, es);
  }

  lemma CommitPlaces(cfg: Config, sys: Sys, c: Entry, now: int)
    requires Capped(cfg) && Windowed(cfg, sys, now) && !WindowOver(cfg, sys.a, now)
    requires c.at == now && c.window == CurrentWindow(sys.a, now)
    ensures CommitFits(cfg, c, now)
    ensures forall d | d in sys.commits :: d.window == c.window || d.window + cfg.dayWindowMs <= c.window
  {
  }

  lemma CommitKeepsWindowed(cfg: Config, sys: Sys, c: Entry, now: int)
    requires Capped(cfg) && Windowed(cfg, sys, now) && !WindowOver(cfg, sys.a, now)
    requires c.at == now && c.window == CurrentWindow(sys.a, now)
    ensures Windowed(cfg, sys.(a := sys.a.(windowStart := Some(c.window)), commits := sys.commits + [c]), now)
  {
    CommitPlaces(cfg, sys, c, now);
    forall d, e | d in sys.commits + [c] && e in sys.commits + [c] ensures Apart(cfg, d.window, e.window) {
      assert d in sys.commits && e in sys.commits ==> Apart(cfg, d.window, e.window);
    }
  }

  /** Windowed looks at nothing but the window and the commits. */
  lemma WindowedDepends(cfg: Config, sys: Sys, sys': Sys, clock: int)
    requires Capped(cfg) && Windowed(cfg, sys, clock)
        && sys'.a.windowStart == sys.a.windowStart && sys'.commits == sys.commits
    ensures Windowed(cfg, sys', clock)
  {
  }

  lemma LaterKeepsWindowed(cfg: Config, sys: Sys, clock: int, t: int)
    requires Capped(cfg) && Windowed(cfg, sys, clock) && clock <= t
    ensures Windowed(cfg, sys, t)
  {
    forall c | c in sys.commits ensures CommitFits(cfg, c, t) {
      assert CommitFits(cfg, c, clock);
    }
  }

  lemma WindowedStep(cfg: Config, sys: Sys, sys': Sys, clock: int, reading: Option<int>, k: Kind)
    requires Capped(cfg) && Windowed(cfg, sys, clock) && IsStep(cfg, sys, sys', reading, k)
    requires reading.Some? ==> clock <= reading.value
    ensures Windowed(cfg, sys', if reading.Some? then reading.value else clock)
  {
    var t := if reading.Some? then reading.value else clock;
    LaterKeepsWindowed(cfg, sys, clock, t);
    RollKeepsWindowed(cfg, sys, clock, t);
    var rolled := sys.(a := Roll(cfg, sys.a, t));
    if k.Committed? {
      var c := sys'.commits[|sys.commits|];
      assert !WindowOver(cfg, rolled.a, t);
      CommitKeepsWindowed(cfg, rolled, c, t);
      WindowedDepends(cfg, rolled.(a := rolled.a.(windowStart := Some(c.window)), commits := sys.commits + [c]),
          sys', t);
    } else if SameWindow(sys.a, sys'.a) {
      WindowedDepends(cfg, sys, sys', t);
    } else {
      WindowedDepends(cfg, rolled, sys', t);
    }
  }

  ghost function EndClock(es: seq<Event>, clock: int): int
    decreases |es|
  {
    if es == [] then clock else EndClock(es[1..], Later(clock, es[0]))
  }

  lemma {:induction false} WindowedRun(cfg: Config, sys: Sys, es: seq<Event>, clock: int)
    requires Capped(cfg) && Windowed(cfg, sys, clock) && Atomic(es, clock)
    ensures Windowed(cfg, Run(cfg, sys, es), EndClock(es, clock))
    decreases |es|
  {
    if es != [] {
      var next := Step(cfg, sys, es[0]);
      var k := Classify(cfg, sys, es[0]);
      WindowedStep(cfg, sys, next, clock, Reading(es[0]), k);
      WindowedRun(cfg, next, es[1..], Later(clock, es[0]));
    }
  }

  /** If every commit in the interval belongs to one of two windows, the interval costs at
      most the two windows together. */
  lemma {:induction false} TwoWindows(cs: seq<Entry>, from: int, to: int, v: int, w: int)
    requires v != w
    requires forall c | c in cs && from <= c.at <= to :: c.window == v || c.window == w
    ensures SpentBetween(cs, from, to) <= SpentIn(cs, v) + SpentIn(cs, w)
    decreases |cs|
  {
    if cs != [] {
      assert cs[|cs| - 1] in cs;
      TwoWindows(cs[..|cs| - 1], from, to, v, w);
    }
  }

  /** No closed interval of one window length meets three windows. */
  lemma NoThreeWindows(cfg: Config, sys: Sys, clock: int, from: int, c: Entry, d: Entry, e: Entry)
    requires Capped(cfg) && Windowed(cfg, sys, clock)
    requires c in sys.commits && d in sys.commits && e in sys.commits
    requires from <= c.at <= from + cfg.dayWindowMs && from <= d.at <= from + cfg.dayWindowMs
    requires from <= e.at <= from + cfg.dayWindowMs
    ensures c.window == d.window || d.window == e.window || c.window == e.window
  {
    assert CommitFits(cfg, c, clock) && CommitFits(cfg, d, clock) && CommitFits(cfg, e, clock);
    assert Apart(cfg, c.window, d.window) && Apart(cfg, d.window, e.window) && Apart(cfg, c.window, e.window);
  }

  /** Uninterrupted calls under a limited policy: commits within any interval of one window
      length stay within twice the daily ceiling. */
  lemma SpendCeilings(cfg: Config, es: seq<Event>, clock: int, from: int)
    requires Capped(cfg) && Atomic(es, clock)
    ensures SpentBetween(Run(cfg, INITIAL, es).commits, from, from + cfg.dayWindowMs) <= 2 * cfg.policy.maxDaily
  {
    WindowedRun(cfg, INITIAL, es, clock);
    var sys, end, to := Run(cfg, INITIAL, es), EndClock(es, clock), from + cfg.dayWindowMs;
    var cs := sys.commits;
    var v, w := 0, 1;
    if c :| c in cs && from <= c.at <= to {
      v, w := c.window, c.window + 1;
      if d :| d in cs && from <= d.at <= to && d.window != c.window {
        w := d.window;
        forall e | e in cs && from <= e.at <= to ensures e.window == v || e.window == w {
          NoThreeWindows(cfg, sys, end, from, c, d, e);
        }
      }
    }
    TwoWindows(cs, from, to, v, w);
    WindowCeiling(cfg, es, v);
    WindowCeiling(cfg, es, w);
  }

  // ---- Exposure ----------------------------------------------------------

  /** Every clock reading of the run falls in the spend window current at that point. */
  ghost predicate StaysInWindow(cfg: Config, sys: Sys, es: seq<Event>)
    decreases |es|
  {
    es == [] || (
      && (Reading(es[0]).Some? ==> !WindowOver(cfg, sys.a, Reading(es[0]).value))
      && StaysInWindow(cfg, Step(cfg, sys, es[0]), es[1..]))
  }

  /** What the ceilings still leave the session, never below zero. */
  ghost function Headroom(cfg: Config, a: Account, id: string): nat
    requires id in a.sessions
  {
    var session := a.sessions[id].maxDaily - a.sessions[id].spent;
    var account := if cfg.policy.Limited? then cfg.policy.maxDaily - a.spentInWindow else session;
    var least := if account < session then account else session;
    if least < 0 then 0 else least
  }

  lemma HeadroomStep(cfg: Config, sys: Sys, sys': Sys, reading: Option<int>, k: Kind, id: string)
    requires id in sys.a.sessions && IsStep(cfg, sys, sys', reading, k)
    requires cfg.policy.Limited? && reading.Some? ==> !WindowOver(cfg, sys.a, reading.value)
    ensures id in sys'.a.sessions
    ensures SpentBy(sys'.commits, id) + Headroom(cfg, sys'.a, id) <= SpentBy(sys.commits, id) + Headroom(cfg, sys.a, id)
  {
    if k.Committed? {
      PushCommit(sys.commits, sys'.commits[|sys.commits|], id, 0);
    } else if k.Silent? {
      assert QuietSession(sys.a.sessions[id], sys'.a.sessions[id]);
    }
  }

  lemma {:induction false} HeadroomRun(cfg: Config, sys: Sys, es: seq<Event>, id: string)
    requires id in sys.a.sessions
    requires cfg.policy.Limited? ==> StaysInWindow(cfg, sys, es)
    ensures id in Run(cfg, sys, es).a.sessions
    ensures SpentBy(Run(cfg, sys, es).commits, id) <= SpentBy(sys.commits, id) + Headroom(cfg, sys.a, id)
    decreases |es|
  {
    if es != [] {
      var next := Step(cfg, sys, es[0]);
      var k := Classify(cfg, sys, es[0]);
      HeadroomStep(cfg, sys, next, Reading(es[0]), k, id);
      HeadroomRun(cfg, next, es[1..], id);
    }
  }

  /** The reported maximum loss, clamped at zero, bounds what the session can still commit in
      the current window, whatever else happens meanwhile: other sessions' calls, suspended
      calls, previews, registrations, reductions. Without an account ceiling the bound needs
      no window. */
  lemma MaxLossBounds(cfg: Config, sys: Sys, es: seq<Event>, id: string, now: int)
    requires MaxLossCeiling(cfg, sys.a, id, now).Some?
    requires cfg.policy.Limited? ==> StaysInWindow(cfg, sys, es)
    ensures var ceiling := MaxLossCeiling(cfg, sys.a, id, now).value;
      SpentBy(Run(cfg, sys, es).commits, id) - SpentBy(sys.commits, id) <= if ceiling < 0 then 0 else ceiling
  {
    HeadroomRun(cfg, sys, es, id);
  }
}
