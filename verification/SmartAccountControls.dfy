/**
 What owner and emergency key can do to a smart account, over every run: brakes hold until
 the owner releases them, revocation and reduction last, and a session stays what it was
 registered as.
 */
module SmartAccountControls {
  import opened Common
  import opened SmartAccount
  import opened SmartAccountRuns

  /** The account's answer to an event is not a refusal. */
  predicate Accepted(cfg: Config, a: Account, e: Event) {
    match e
    case DoRegister(caller, id, r, now) => Register(cfg, a, caller, id, r, now).1.Ok?
    case DoRevoke(caller, id) => Revoke(cfg, a, caller, id).1.Ok?
    case DoSwitch(caller, w) => Flip(cfg, a, caller, w).1.Ok?
    case DoReduce(caller, id, perTx, daily) => Reduce(cfg, a, caller, id, perTx, daily).1.Ok?
    case DoPreview(req, now) => Preview(cfg, a, req, now).1.Ok?
    case DoExecute(req, now) => Execute(cfg, a, req, now).1.Ok?
    case DoBegin(req, now) => Begin(cfg, a, req, now).Ok?
    case DoFinish(call, at) =>
      call.req.sessionId in a.sessions && call.req.payload.Some? && Finish(cfg, a, call, at).1.Ok?
  }

  // ---- What no call changes ----------------------------------------------

  /** A session is still bound to the same agent, keys, dates and lists. */
  ghost predicate SameIdentity(s: Session, t: Session) {
    && t.agentId == s.agentId && t.publicKey == s.publicKey && t.evmAddress == s.evmAddress
    && t.issuedAt == s.issuedAt && t.expiresAt == s.expiresAt && t.whitelist == s.whitelist
  }

  /** Calls may spend, and change nothing else. */
  ghost predicate OnlySpends(a: Account, b: Account) {
    && b.frozen == a.frozen && b.paused == a.paused && b.sessions.Keys == a.sessions.Keys
    && forall id | id in a.sessions ::
         SameIdentity(a.sessions[id], b.sessions[id]) && b.sessions[id].active == a.sessions[id].active
  }

  predicate IsCall(e: Event) {
    e.DoPreview? || e.DoExecute? || e.DoBegin? || e.DoFinish?
  }

  lemma CommitOnlySpends(cfg: Config, a: Account, id: string, nonce: nat, amount: nat, now: int)
    requires id in a.sessions
    ensures var b := Commit(cfg, a, id, nonce, amount, now);
      OnlySpends(a, b) && b.executions == a.executions + 1 && b.windowStart.Some?
  {
  }

  lemma RolledOnlySpends(cfg: Config, a: Account, now: int)
    ensures var b := Rolled(cfg, a, now); b.sessions == a.sessions && OnlySpends(a, b) && b.executions == a.executions
  {
  }

  /** What a call answers, and how often it committed. */
  ghost predicate Spends(a: Account, next: (Account, Result<Receipt, Reason>), commits: bool) {
    && OnlySpends(a, next.0)
    && next.0.executions == a.executions + (if next.1.Ok? && commits then 1 else 0)
    && (next.1.Ok? ==> next.1.value.sessionId in a.sessions && (commits ==> next.0.windowStart.Some?))
  }

  lemma SettleSpends(cfg: Config, a: Account, id: string, nonce: nat, amount: nat, now: int, preview: bool)
    requires id in a.sessions
    ensures Spends(a, Settle(cfg, a, id, nonce, amount, now, preview), !preview)
  {
    RolledOnlySpends(cfg, a, now);
    CommitOnlySpends(cfg, Rolled(cfg, a, now), id, nonce, amount, now);
  }

  lemma ExecuteSpends(cfg: Config, a: Account, req: Request, now: int)
    ensures Spends(a, Execute(cfg, a, req, now), true)
  {
    var nonce := Admit(cfg, a, req, now);
    if nonce.Ok? && Bind(a.sessions[req.sessionId], req, now).Ok? {
      SettleSpends(cfg, a, req.sessionId, nonce.value, Bind(a.sessions[req.sessionId], req, now).value, now, false);
    }
  }

  lemma PreviewSpends(cfg: Config, a: Account, req: Request, now: int)
    ensures Spends(a, Preview(cfg, a, req, now), false)
  {
    var nonce := Admit(cfg, a, req, now);
    if nonce.Ok? && ClaimedAmount(req).Ok? {
      SettleSpends(cfg, a, req.sessionId, nonce.value, ClaimedAmount(req).value, now, true);
    }
  }

  lemma FinishSpends(cfg: Config, a: Account, call: Suspended, at: int)
    requires call.req.sessionId in a.sessions && call.req.payload.Some?
    ensures Spends(a, Finish(cfg, a, call, at), true)
  {
    if BindSignature(call.req, at).Ok? {
      SettleSpends(cfg, a, call.req.sessionId, call.nonce, BindSignature(call.req, at).value, call.startedAt, false);
    }
  }

  lemma SettledCounts(cfg: Config, sys: Sys, next: (Account, Result<Receipt, Reason>), now: int, madeAt: int)
    requires Spends(sys.a, next, true)
    ensures var after := Settled(cfg, sys, next, now, madeAt);
      Counted(sys, after)
  {
  }

  ghost predicate Counted(sys: Sys, next: Sys) {
    OnlySpends(sys.a, next.a) && next.a.executions - sys.a.executions == |next.commits| - |sys.commits|
  }

  lemma FinishCounts(cfg: Config, sys: Sys, call: Suspended, at: int)
    ensures Counted(sys, Step(cfg, sys, DoFinish(call, at)))
  {
    if call in sys.inflight && call.req.sessionId in sys.a.sessions && call.req.payload.Some? {
      FinishSpends(cfg, sys.a, call, at);
      var resumed := sys.(inflight := sys.inflight - multiset{call});
      SettledCounts(cfg, resumed, Finish(cfg, sys.a, call, at), call.startedAt, at);
    }
  }

  lemma CallOnlySpends(cfg: Config, sys: Sys, e: Event)
    requires IsCall(e)
    ensures Counted(sys, Step(cfg, sys, e))
  {
    match e
    case DoPreview(req, now) => PreviewSpends(cfg, sys.a, req, now);
    case DoExecute(req, now) =>
      ExecuteSpends(cfg, sys.a, req, now);
      SettledCounts(cfg, sys, Execute(cfg, sys.a, req, now), now, now);
    case DoFinish(call, at) => FinishCounts(cfg, sys, call, at);
    case _ =>
  }

  lemma OthersDoNotCommit(cfg: Config, sys: Sys, e: Event)
    requires !IsCall(e)
    ensures Step(cfg, sys, e).commits == sys.commits && Step(cfg, sys, e).a.executions == sys.a.executions
  {
  }

  // ---- Brakes ------------------------------------------------------------

  /** The emergency key freezes, it or the owner pauses, and only the owner releases. */
  lemma SwitchAcceptedExactly(cfg: Config, a: Account, caller: string, w: Switch)
    ensures Accepted(cfg, a, DoSwitch(caller, w)) <==>
      (caller == cfg.owner && w != Freeze) || (caller == cfg.emergencyKey && w in {Freeze, Pause})
  {
  }

  predicate Freezes(cfg: Config, e: Event) {
    e == DoSwitch(cfg.emergencyKey, Freeze)
  }

  predicate Unfreezes(cfg: Config, e: Event) {
    e == DoSwitch(cfg.owner, Unfreeze)
  }

  predicate Pauses(cfg: Config, e: Event) {
    e == DoSwitch(cfg.owner, Pause) || e == DoSwitch(cfg.emergencyKey, Pause)
  }

  predicate Resumes(cfg: Config, e: Event) {
    e == DoSwitch(cfg.owner, Resume)
  }

  /** No other event sets or clears either flag. */
  lemma FlagsExactly(cfg: Config, sys: Sys, e: Event)
    ensures Step(cfg, sys, e).a.frozen <==> Freezes(cfg, e) || (sys.a.frozen && !Unfreezes(cfg, e))
    ensures Step(cfg, sys, e).a.paused <==> Pauses(cfg, e) || (sys.a.paused && !Resumes(cfg, e))
  {
    if IsCall(e) {
      CallOnlySpends(cfg, sys, e);
    }
  }

  /** Some event braked, and none after it released. */
  ghost predicate Standing(es: seq<Event>, brakes: Event -> bool, releases: Event -> bool) {
    exists i | 0 <= i < |es| :: brakes(es[i]) && forall j | i < j < |es| :: !releases(es[j])
  }

  lemma StandingLast(es: seq<Event>, brakes: Event -> bool, releases: Event -> bool)
    requires es != [] && forall e :: !(brakes(e) && releases(e))
    ensures var n := |es| - 1;
      Standing(es, brakes, releases) <==> brakes(es[n]) || (Standing(es[..n], brakes, releases) && !releases(es[n]))
  {
    var n := |es| - 1;
    var init := es[..n];
    if Standing(es, brakes, releases) && !brakes(es[n]) {
      var i :| 0 <= i < |es| && brakes(es[i]) && forall j | i < j < |es| :: !releases(es[j]);
      assert brakes(init[i]) && forall j | i < j < |init| :: init[j] == es[j];
    }
    if Standing(init, brakes, releases) && !releases(es[n]) {
      var i :| 0 <= i < |init| && brakes(init[i]) && forall j | i < j < |init| :: !releases(init[j]);
      assert brakes(es[i]);
      forall j | i < j < |es| ensures !releases(es[j]) {
        assert j < n ==> es[j] == init[j];
      }
    }
  }

  lemma {:induction false} RunSnoc(cfg: Config, sys: Sys, es: seq<Event>)
    requires es != []
    ensures Run(cfg, sys, es) == Step(cfg, Run(cfg, sys, es[..|es| - 1]), es[|es| - 1])
    decreases |es|
  {
    if |es| > 1 {
      RunSnoc(cfg, Step(cfg, sys, es[0]), es[1..]);
      assert es[..|es| - 1][1..] == es[1..][..|es| - 2];
    }
  }

  /** In every run the account is frozen exactly when the emergency key froze it and the owner
      has not released it since, and likewise for a pause. */
  lemma {:induction false} BrakesStandExactly(cfg: Config, es: seq<Event>)
    ensures Run(cfg, INITIAL, es).a.frozen <==> Standing(es, e => Freezes(cfg, e), e => Unfreezes(cfg, e))
    ensures Run(cfg, INITIAL, es).a.paused <==> Standing(es, e => Pauses(cfg, e), e => Resumes(cfg, e))
    decreases |es|
  {
    if es != [] {
      var n := |es| - 1;
      BrakesStandExactly(cfg, es[..n]);
      RunSnoc(cfg, INITIAL, es);
      FlagsExactly(cfg, Run(cfg, INITIAL, es[..n]), es[n]);
      StandingLast(es, e => Freezes(cfg, e), e => Unfreezes(cfg, e));
      StandingLast(es, e => Pauses(cfg, e), e => Resumes(cfg, e));
    }
  }

  /** Under a brake every new call is refused. */
  lemma BrakedRefuses(cfg: Config, a: Account, req: Request, now: int)
    requires a.frozen || a.paused
    ensures !Accepted(cfg, a, DoExecute(req, now)) && !Accepted(cfg, a, DoPreview(req, now))
    ensures !Accepted(cfg, a, DoBegin(req, now))
  {
  }

  /** Neither release is among the events. */
  predicate NoRelease(cfg: Config, es: seq<Event>) {
    es == [] || (!Unfreezes(cfg, es[0]) && !Resumes(cfg, es[0]) && NoRelease(cfg, es[1..]))
  }

  lemma BrakedStep(cfg: Config, sys: Sys, e: Event)
    requires (sys.a.frozen || sys.a.paused) && !Unfreezes(cfg, e) && !Resumes(cfg, e)
    ensures var next := Step(cfg, sys, e);
      && (next.a.frozen || next.a.paused) && next.inflight <= sys.inflight
      && |next.commits| + |next.inflight| <= |sys.commits| + |sys.inflight|
      && (!e.DoFinish? ==> next.commits == sys.commits)
  {
    FlagsExactly(cfg, sys, e);
    if e.DoExecute? {
      BrakedRefuses(cfg, sys.a, e.req, e.now);
    }
    if e.DoBegin? {
      BrakedRefuses(cfg, sys.a, e.req, e.now);
    }
    if e.DoFinish? && e.call in sys.inflight {
      assert sys.inflight - multiset{e.call} <= sys.inflight;
    }
  }

  /** From a brake on, until a release by the owner, no uninterrupted call of any session
      commits and none is begun; at most the calls then suspended still commit. */
  lemma {:induction false} BrakeHolds(cfg: Config, sys: Sys, es: seq<Event>)
    requires (sys.a.frozen || sys.a.paused) && NoRelease(cfg, es)
    ensures var end := Run(cfg, sys, es);
      && (end.a.frozen || end.a.paused) && end.inflight <= sys.inflight
      && |end.commits| + |end.inflight| <= |sys.commits| + |sys.inflight|
      && (Uninterrupted(es) ==> end.commits == sys.commits)
    decreases |es|
  {
    if es != [] {
      BrakedStep(cfg, sys, es[0]);
      BrakeHolds(cfg, Step(cfg, sys, es[0]), es[1..]);
    }
  }

  /** An accepted brake brakes, whoever was let to pull it. */
  lemma BrakeBrakes(cfg: Config, sys: Sys, caller: string, w: Switch, es: seq<Event>)
    requires w in {Freeze, Pause} && Accepted(cfg, sys.a, DoSwitch(caller, w)) && NoRelease(cfg, es)
    ensures var end := Run(cfg, Step(cfg, sys, DoSwitch(caller, w)), es);
      && (Uninterrupted(es) ==> end.commits == sys.commits)
      && |end.commits| <= |sys.commits| + |sys.inflight|
      && forall req, now :: !Accepted(cfg, end.a, DoExecute(req, now)) && !Accepted(cfg, end.a, DoPreview(req, now))
                            && !Accepted(cfg, end.a, DoBegin(req, now))
  {
    var braked := Step(cfg, sys, DoSwitch(caller, w));
    SwitchAcceptedExactly(cfg, sys.a, caller, w);
    FlagsExactly(cfg, sys, DoSwitch(caller, w));
    BrakeHolds(cfg, braked, es);
    var end := Run(cfg, braked, es);
    forall req, now ensures !Accepted(cfg, end.a, DoExecute(req, now)) && !Accepted(cfg, end.a, DoPreview(req, now))
                            && !Accepted(cfg, end.a, DoBegin(req, now)) {
      BrakedRefuses(cfg, end.a, req, now);
    }
  }

  /** Braking and releasing again leaves the account as it was, so every call is answered as
      it would have been. */
  lemma ReleaseRestores(cfg: Config, sys: Sys, caller: string)
    requires caller == cfg.owner || caller == cfg.emergencyKey
    ensures !sys.a.frozen ==>
      Run(cfg, sys, [DoSwitch(cfg.emergencyKey, Freeze), DoSwitch(cfg.owner, Unfreeze)]) == sys
    ensures !sys.a.paused ==> Run(cfg, sys, [DoSwitch(caller, Pause), DoSwitch(cfg.owner, Resume)]) == sys
  {
    RunTwo(cfg, sys, DoSwitch(cfg.emergencyKey, Freeze), DoSwitch(cfg.owner, Unfreeze));
    RunTwo(cfg, sys, DoSwitch(caller, Pause), DoSwitch(cfg.owner, Resume));
  }

  lemma RunTwo(cfg: Config, sys: Sys, d: Event, e: Event)
    ensures Run(cfg, sys, [d, e]) == Step(cfg, Step(cfg, sys, d), e)
  {
    assert [d, e][1..] == [e];
    assert Run(cfg, Step(cfg, sys, d), [e]) == Run(cfg, Step(cfg, Step(cfg, sys, d), e), [e][1..]);
  }

  // ---- Registration ------------------------------------------------------

  /** A ceiling that is given as an integer and not negative. */
  predicate IsCeiling(n: Numeral) {
    n.Int? && n.v >= 0
  }

  /** The owner registers exactly complete sessions under new names, dated in order and not
      yet expired. The session holds what was asked, is active and has spent nothing. */
  lemma RegisteredExactly(cfg: Config, sys: Sys, caller: string, id: string, r: Registration, now: int)
    ensures var e := DoRegister(caller, id, r, now); var next := Step(cfg, sys, e);
      && (Accepted(cfg, sys.a, e) <==>
            && caller == cfg.owner && id != "" && id !in sys.a.sessions && r.agentId != ""
            && !(r.publicKey == None && r.evmAddress == None)
            && r.issuedAt.Some? && 0 < r.issuedAt.value
            && r.expiresAt.Some? && r.issuedAt.value < r.expiresAt.value && now < r.expiresAt.value
            && IsCeiling(r.maxPerTx) && IsCeiling(r.maxDaily))
      && (Accepted(cfg, sys.a, e) ==>
            && next.a.sessions - {id} == sys.a.sessions && id in next.a.sessions
            && var s := next.a.sessions[id];
            && s.agentId == r.agentId && s.publicKey == r.publicKey && s.evmAddress == r.evmAddress
            && Some(s.issuedAt) == r.issuedAt && Some(s.expiresAt) == r.expiresAt && s.whitelist == r.whitelist
            && Int(s.maxPerTx) == r.maxPerTx && Int(s.maxDaily) == r.maxDaily
            && s.active && s.lastNonce == 0 && s.spent == 0)
      && (!Accepted(cfg, sys.a, e) ==> next == sys)
  {
  }

  lemma IdentityStep(cfg: Config, sys: Sys, e: Event, id: string)
    requires id in sys.a.sessions
    ensures var next := Step(cfg, sys, e);
      id in next.a.sessions && SameIdentity(sys.a.sessions[id], next.a.sessions[id])
  {
    if IsCall(e) {
      CallOnlySpends(cfg, sys, e);
    } else if e.DoReduce? && e.id in sys.a.sessions {
      ReducedExactly(cfg, sys, e.caller, e.id, e.perTx, e.daily);
    }
  }

  /** In every run. */
  lemma {:induction false} IdentityKept(cfg: Config, sys: Sys, es: seq<Event>, id: string)
    requires id in sys.a.sessions
    ensures var end := Run(cfg, sys, es);
      id in end.a.sessions && SameIdentity(sys.a.sessions[id], end.a.sessions[id])
    decreases |es|
  {
    if es != [] {
      IdentityStep(cfg, sys, es[0], id);
      IdentityKept(cfg, Step(cfg, sys, es[0]), es[1..], id);
    }
  }

  // ---- Revocation --------------------------------------------------------

  /** A session stops being active exactly when the owner or the emergency key revokes it,
      and never starts again. */
  lemma ActiveExactly(cfg: Config, sys: Sys, e: Event, id: string)
    requires id in sys.a.sessions
    ensures var next := Step(cfg, sys, e);
      id in next.a.sessions
      && (next.a.sessions[id].active <==>
            sys.a.sessions[id].active && e != DoRevoke(cfg.owner, id) && e != DoRevoke(cfg.emergencyKey, id))
  {
    if IsCall(e) {
      CallOnlySpends(cfg, sys, e);
    } else if e.DoReduce? && e.id in sys.a.sessions {
      ReducedExactly(cfg, sys, e.caller, e.id, e.perTx, e.daily);
    }
  }

  lemma RevokeAcceptedExactly(cfg: Config, a: Account, caller: string, id: string)
    ensures Accepted(cfg, a, DoRevoke(caller, id)) <==>
      id in a.sessions && (caller == cfg.owner || caller == cfg.emergencyKey)
  {
  }

  /** After an accepted revocation the session makes no commit more, whatever uninterrupted
      calls follow. */
  lemma RevocationLasts(cfg: Config, sys: Sys, caller: string, id: string, es: seq<Event>)
    requires Accepted(cfg, sys.a, DoRevoke(caller, id)) && Uninterrupted(es)
    ensures var end := Run(cfg, Step(cfg, sys, DoRevoke(caller, id)), es);
      Of(end.commits, id) == Of(sys.commits, id)
  {
    RevokeAcceptedExactly(cfg, sys.a, caller, id);
    ActiveExactly(cfg, sys, DoRevoke(caller, id), id);
    RevokedStaysQuiet(cfg, Step(cfg, sys, DoRevoke(caller, id)), es, id);
  }

  // ---- Reduction ---------------------------------------------------------

  /** A ceiling that may be given: none, blank for zero, or one that is no higher. */
  predicate Lowers(n: Numeral, current: nat) {
    n == Absent || n == Blank || (n.Int? && 0 <= n.v <= current)
  }

  function LoweredTo(n: Numeral, current: nat): int {
    match n case Int(v) => v case Blank => 0 case _ => current
  }

  lemma LoweredExactly(n: Numeral, current: nat)
    ensures ReducedCeiling(n, current).Ok? <==> Lowers(n, current)
    ensures Lowers(n, current) ==> ReducedCeiling(n, current).value == LoweredTo(n, current)
  {
  }

  /** The emergency key reduces exactly to ceilings that are no higher. One that is out of
      line leaves itself and those after it alone, and nothing else ever changes. */
  lemma ReducedExactly(cfg: Config, sys: Sys, caller: string, id: string, perTx: Numeral, daily: Numeral)
    requires id in sys.a.sessions
    ensures var e, s := DoReduce(caller, id, perTx, daily), sys.a.sessions[id];
      var first := caller == cfg.emergencyKey && Lowers(perTx, s.maxPerTx);
      var both := first && Lowers(daily, s.maxDaily);
      && (Accepted(cfg, sys.a, e) <==> both)
      && Step(cfg, sys, e) == sys.(a := sys.a.(sessions := sys.a.sessions[id := s.(
           maxPerTx := if first then LoweredTo(perTx, s.maxPerTx) else s.maxPerTx,
           maxDaily := if both then LoweredTo(daily, s.maxDaily) else s.maxDaily)]))
  {
    LoweredExactly(perTx, sys.a.sessions[id].maxPerTx);
    LoweredExactly(daily, sys.a.sessions[id].maxDaily);
    assert sys.a.sessions == sys.a.sessions[id := sys.a.sessions[id]];
  }

  /** Within the ceilings, and what it still commits too. */
  ghost predicate CommitsWithin(before: Sys, after: Sys, id: string, perTx: nat, daily: nat) {
    && id in before.a.sessions && id in after.a.sessions
    && after.a.sessions[id].maxPerTx <= perTx && after.a.sessions[id].maxDaily <= daily
    && |before.commits| <= |after.commits| && before.commits == after.commits[..|before.commits|]
    && (forall i | |before.commits| <= i < |after.commits| && after.commits[i].id == id ::
          after.commits[i].amount <= perTx)
    && (after.a.sessions[id].spent <= daily || after.a.sessions[id].spent == before.a.sessions[id].spent)
  }

  lemma WithinStep(cfg: Config, before: Sys, sys: Sys, e: Event, id: string, perTx: nat, daily: nat)
    requires CommitsWithin(before, sys, id, perTx, daily)
    ensures CommitsWithin(before, Step(cfg, sys, e), id, perTx, daily)
  {
    var next := Step(cfg, sys, e);
    var k := Classify(cfg, sys, e);
    if k.Silent? {
      assert QuietSession(sys.a.sessions[id], next.a.sessions[id]);
    } else if k.Committed? {
      var c := next.commits[|sys.commits|];
      assert next.commits == sys.commits + [c] && (c.id == id ==> c.amount <= perTx);
    }
  }

  lemma {:induction false} WithinRun(cfg: Config, before: Sys, sys: Sys, es: seq<Event>, id: string,
                                     perTx: nat, daily: nat)
    requires CommitsWithin(before, sys, id, perTx, daily)
    ensures CommitsWithin(before, Run(cfg, sys, es), id, perTx, daily)
    decreases |es|
  {
    if es != [] {
      WithinStep(cfg, before, sys, es[0], id, perTx, daily);
      WithinRun(cfg, before, Step(cfg, sys, es[0]), es[1..], id, perTx, daily);
    }
  }

  /** After an accepted reduction, in every run, suspended calls included, each commit of the
      session is within the new transaction ceiling, and it spends no more unless the total
      stays within the new daily one. */
  lemma ReductionLasts(cfg: Config, sys: Sys, caller: string, id: string, perTx: nat, daily: nat, es: seq<Event>)
    requires Accepted(cfg, sys.a, DoReduce(caller, id, Int(perTx), Int(daily)))
    ensures var next := Step(cfg, sys, DoReduce(caller, id, Int(perTx), Int(daily)));
      next.commits == sys.commits && CommitsWithin(next, Run(cfg, next, es), id, perTx, daily)
  {
    var next := Step(cfg, sys, DoReduce(caller, id, Int(perTx), Int(daily)));
    assert id in sys.a.sessions;
    ReducedExactly(cfg, sys, caller, id, Int(perTx), Int(daily));
    WithinRun(cfg, next, next, es, id, perTx, daily);
  }

  // ---- Counting ----------------------------------------------------------

  lemma {:induction false} CountRun(cfg: Config, sys: Sys, es: seq<Event>)
    requires sys.a.executions == |sys.commits|
    ensures Run(cfg, sys, es).a.executions == |Run(cfg, sys, es).commits|
    decreases |es|
  {
    if es != [] {
      if IsCall(es[0]) {
        CallOnlySpends(cfg, sys, es[0]);
      } else {
        OthersDoNotCommit(cfg, sys, es[0]);
      }
      CountRun(cfg, Step(cfg, sys, es[0]), es[1..]);
    }
  }

  /** In every run the execution counter is the number of commits. */
  lemma ExecutionsCount(cfg: Config, es: seq<Event>)
    ensures Run(cfg, INITIAL, es).a.executions == |Run(cfg, INITIAL, es).commits|
  {
    CountRun(cfg, INITIAL, es);
  }

  /** Without an account ceiling nothing counts towards the window, in any run. */
  lemma {:induction false} UnlimitedCountsNothing(cfg: Config, sys: Sys, es: seq<Event>)
    requires cfg.policy.Unlimited?
    ensures Run(cfg, sys, es).a.spentInWindow == sys.a.spentInWindow
    decreases |es|
  {
    if es != [] {
      var k := Classify(cfg, sys, es[0]);
      UnlimitedCountsNothing(cfg, Step(cfg, sys, es[0]), es[1..]);
    }
  }
}
