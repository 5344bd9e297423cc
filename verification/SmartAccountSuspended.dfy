/**
 Calls suspended at their signature check. The promises of uninterrupted calls that a resumed
 call may break, nonce single use and revocation, hold of a run exactly when every resumed
 call that commits still meets the check it made before; expiry holds of every run.
 */
module SmartAccountSuspended {
  import opened Common
  import opened SmartAccount
  import opened SmartAccountRuns

  // ---- Brakes ------------------------------------------------------------

  /** Brakes, revocation and the nonce are not looked at again after the await: a resumed
      call's answer does not depend on them. */
  lemma ResumeIgnoresBrakes(cfg: Config, a: Account, call: Suspended, at: int,
                            frozen: bool, paused: bool, active: bool, lastNonce: nat)
    requires call.req.sessionId in a.sessions && call.req.payload.Some?
    ensures var id := call.req.sessionId;
      var b := a.(frozen := frozen, paused := paused,
                  sessions := a.sessions[id := a.sessions[id].(active := active, lastNonce := lastNonce)]);
      Finish(cfg, b, call, at).1 == Finish(cfg, a, call, at).1
  {
  }

  predicate Commits(cfg: Config, sys: Sys, e: Event) {
    |Step(cfg, sys, e).commits| > |sys.commits|
  }

  lemma CommitsWhenCommitted(cfg: Config, sys: Sys, e: Event, k: Kind)
    requires IsStep(cfg, sys, Step(cfg, sys, e), Reading(e), k)
    ensures k.Committed? <==> Commits(cfg, sys, e)
  {
  }

  // ---- Nonces ------------------------------------------------------------

  ghost predicate NoncesIncrease(cs: seq<Entry>) {
    forall i, j | 0 <= i < j < |cs| && cs[i].id == cs[j].id :: cs[i].nonce < cs[j].nonce
  }

  function LastNonceOf(cs: seq<Entry>, id: string): nat {
    if cs == [] then 0
    else if cs[|cs| - 1].id == id then cs[|cs| - 1].nonce
    else LastNonceOf(cs[..|cs| - 1], id)
  }

  /** What an account remembers of its commits, and what suspended calls carry. */
  ghost predicate Remembers(sys: Sys) {
    && (forall id | id in sys.a.sessions :: sys.a.sessions[id].lastNonce == LastNonceOf(sys.commits, id))
    && (forall c | c in sys.commits :: c.id in sys.a.sessions)
    && (forall call | call in sys.inflight :: call.nonce >= 1)
  }

  lemma {:induction false} LastNonceFacts(cs: seq<Entry>, id: string)
    ensures LastNonceOf(cs, id) == 0
        || exists i :: 0 <= i < |cs| && cs[i].id == id && cs[i].nonce == LastNonceOf(cs, id)
    ensures (forall c | c in cs :: c.id != id) ==> LastNonceOf(cs, id) == 0
    ensures NoncesIncrease(cs) ==> forall i | 0 <= i < |cs| && cs[i].id == id :: cs[i].nonce <= LastNonceOf(cs, id)
    decreases |cs|
  {
    if cs != [] && cs[|cs| - 1].id != id {
      var init := cs[..|cs| - 1];
      LastNonceFacts(init, id);
      assert forall i | 0 <= i < |init| :: cs[i] == init[i];
    }
  }

  lemma BegunHasNonce(cfg: Config, sys: Sys, e: Event, call: Suspended)
    requires call in Step(cfg, sys, e).inflight
    ensures call in sys.inflight || (e.DoBegin? && Begin(cfg, sys.a, e.req, e.now) == Ok(call) && call.nonce >= 1)
  {
  }

  lemma RemembersStep(cfg: Config, sys: Sys, e: Event)
    requires Remembers(sys)
    ensures Remembers(Step(cfg, sys, e))
  {
    var next := Step(cfg, sys, e);
    var k := Classify(cfg, sys, e);
    forall id | id in next.a.sessions ensures next.a.sessions[id].lastNonce == LastNonceOf(next.commits, id) {
      if k.Committed? {
        assert next.commits[..|sys.commits|] == sys.commits;
      } else if k.Silent? {
        assert QuietSession(sys.a.sessions[id], next.a.sessions[id]);
      } else if id == k.id {
        LastNonceFacts(sys.commits, id);
      }
    }
    forall call | call in next.inflight ensures call.nonce >= 1 {
      BegunHasNonce(cfg, sys, e, call);
    }
  }

  /** A commit keeps nonces increasing exactly when its nonce exceeds the session's last. */
  lemma IncreaseExactly(sys: Sys, c: Entry)
    requires Remembers(sys) && c.id in sys.a.sessions && c.nonce >= 1
    ensures NoncesIncrease(sys.commits + [c]) <==>
      NoncesIncrease(sys.commits) && c.nonce > sys.a.sessions[c.id].lastNonce
  {
    var cs, n := sys.commits + [c], |sys.commits|;
    LastNonceFacts(sys.commits, c.id);
    assert forall i | 0 <= i < n :: cs[i] == sys.commits[i];
    if NoncesIncrease(cs) {
      forall i, j | 0 <= i < j < n && sys.commits[i].id == sys.commits[j].id
        ensures sys.commits[i].nonce < sys.commits[j].nonce
      {
        assert cs[i].nonce < cs[j].nonce;
      }
      assert cs[n] == c;
    }
  }

  /** The guard a resumed call does not have: it commits only over a smaller last nonce. */
  predicate FreshResume(cfg: Config, sys: Sys, e: Event) {
    e.DoFinish? && Commits(cfg, sys, e) ==>
      e.call.req.sessionId in sys.a.sessions && e.call.nonce > sys.a.sessions[e.call.req.sessionId].lastNonce
  }

  predicate FreshResumes(cfg: Config, sys: Sys, es: seq<Event>)
    decreases |es|
  {
    es == [] || (FreshResume(cfg, sys, es[0]) && FreshResumes(cfg, Step(cfg, sys, es[0]), es[1..]))
  }

  lemma NonceStepExactly(cfg: Config, sys: Sys, e: Event)
    requires Remembers(sys)
    ensures NoncesIncrease(Step(cfg, sys, e).commits) <==> NoncesIncrease(sys.commits) && FreshResume(cfg, sys, e)
  {
    var k := Classify(cfg, sys, e);
    CommitsWhenCommitted(cfg, sys, e, k);
    if k.Committed? {
      IncreaseExactly(sys, Step(cfg, sys, e).commits[|sys.commits|]);
    }
  }

  lemma {:induction false} SingleUseFrom(cfg: Config, sys: Sys, es: seq<Event>)
    requires Remembers(sys)
    ensures NoncesIncrease(Run(cfg, sys, es).commits) <==> NoncesIncrease(sys.commits) && FreshResumes(cfg, sys, es)
    decreases |es|
  {
    if es != [] {
      NonceStepExactly(cfg, sys, es[0]);
      RemembersStep(cfg, sys, es[0]);
      SingleUseFrom(cfg, Step(cfg, sys, es[0]), es[1..]);
    }
  }

  /** Over every run: each session's nonces strictly increase, so none is used twice, exactly
      when every resumed call that commits does so over a smaller last nonce. */
  lemma SingleUseExactly(cfg: Config, es: seq<Event>)
    ensures NoncesIncrease(Run(cfg, INITIAL, es).commits) <==> FreshResumes(cfg, INITIAL, es)
  {
    SingleUseFrom(cfg, INITIAL, es);
  }

  // ---- Revocation --------------------------------------------------------

  ghost predicate IsRevoked(sys: Sys, id: string) {
    id in sys.a.sessions && !sys.a.sessions[id].active
  }

  /** From wherever a session is revoked to the end, it commits nothing more. */
  ghost predicate RevokedNeverCommit(cfg: Config, sys: Sys, es: seq<Event>) {
    forall n, id | 0 <= n <= |es| && IsRevoked(Run(cfg, sys, es[..n]), id) ::
      Of(Run(cfg, sys, es).commits, id) == Of(Run(cfg, sys, es[..n]).commits, id)
  }

  /** The other guard: a resumed call commits only on an active session. */
  predicate ActiveResume(cfg: Config, sys: Sys, e: Event) {
    e.DoFinish? && Commits(cfg, sys, e) ==>
      e.call.req.sessionId in sys.a.sessions && sys.a.sessions[e.call.req.sessionId].active
  }

  predicate ActiveResumes(cfg: Config, sys: Sys, es: seq<Event>)
    decreases |es|
  {
    es == [] || (ActiveResume(cfg, sys, es[0]) && ActiveResumes(cfg, Step(cfg, sys, es[0]), es[1..]))
  }

  lemma {:induction false} RevokedKept(cfg: Config, sys: Sys, es: seq<Event>, id: string)
    requires ActiveResumes(cfg, sys, es) && IsRevoked(sys, id)
    ensures Of(Run(cfg, sys, es).commits, id) == Of(sys.commits, id)
    decreases |es|
  {
    if es != [] {
      var next := Step(cfg, sys, es[0]);
      var k := Classify(cfg, sys, es[0]);
      CommitsWhenCommitted(cfg, sys, es[0], k);
      RevokedStep(cfg, sys, next, Reading(es[0]), k, id);
      RevokedKept(cfg, next, es[1..], id);
    }
  }

  lemma {:induction false} ActiveMeansKept(cfg: Config, sys: Sys, es: seq<Event>, n: nat, id: string)
    requires ActiveResumes(cfg, sys, es) && n <= |es| && IsRevoked(Run(cfg, sys, es[..n]), id)
    ensures Of(Run(cfg, sys, es).commits, id) == Of(Run(cfg, sys, es[..n]).commits, id)
    decreases n
  {
    if n == 0 {
      assert es[..0] == [];
      RevokedKept(cfg, sys, es, id);
    } else {
      assert es[..n][0] == es[0] && es[..n][1..] == es[1..][..n - 1];
      ActiveMeansKept(cfg, Step(cfg, sys, es[0]), es[1..], n - 1, id);
    }
  }

  lemma {:induction false} OfGrows(cfg: Config, sys: Sys, es: seq<Event>, id: string)
    ensures |Of(Run(cfg, sys, es).commits, id)| >= |Of(sys.commits, id)|
    decreases |es|
  {
    if es != [] {
      var next := Step(cfg, sys, es[0]);
      var k := Classify(cfg, sys, es[0]);
      if k.Committed? {
        PushOf(sys.commits, next.commits[|sys.commits|], id);
      }
      OfGrows(cfg, next, es[1..], id);
    }
  }

  /** Where a resumed call commits on an inactive session, that session commits once revoked. */
  lemma {:induction false} InactiveResume(cfg: Config, sys: Sys, es: seq<Event>) returns (n: nat, id: string)
    requires !ActiveResumes(cfg, sys, es)
    ensures n <= |es| && IsRevoked(Run(cfg, sys, es[..n]), id)
    ensures Of(Run(cfg, sys, es).commits, id) != Of(Run(cfg, sys, es[..n]).commits, id)
    decreases |es|
  {
    var next := Step(cfg, sys, es[0]);
    if !ActiveResume(cfg, sys, es[0]) {
      var k := Classify(cfg, sys, es[0]);
      CommitsWhenCommitted(cfg, sys, es[0], k);
      n, id := 0, k.id;
      assert es[..0] == [];
      RevokedStep(cfg, sys, next, Reading(es[0]), k, id);
      OfGrows(cfg, next, es[1..], id);
    } else {
      n, id := InactiveResume(cfg, next, es[1..]);
      n := n + 1;
      assert es[..n][0] == es[0] && es[..n][1..] == es[1..][..n - 1];
    }
  }

  /** Over every run: a revoked session commits nothing more exactly when every resumed call
      that commits does so on an active session. */
  lemma RevocationExactly(cfg: Config, sys: Sys, es: seq<Event>)
    ensures RevokedNeverCommit(cfg, sys, es) <==> ActiveResumes(cfg, sys, es)
  {
    if ActiveResumes(cfg, sys, es) {
      forall n, id | 0 <= n <= |es| && IsRevoked(Run(cfg, sys, es[..n]), id)
        ensures Of(Run(cfg, sys, es).commits, id) == Of(Run(cfg, sys, es[..n]).commits, id)
      {
        ActiveMeansKept(cfg, sys, es, n, id);
      }
    } else {
      var n, id := InactiveResume(cfg, sys, es);
    }
  }

  // ---- Expiry ------------------------------------------------------------

  ghost predicate InTime(sys: Sys, call: Suspended) {
    && call.req.payload.Some? && call.req.sessionId in sys.a.sessions
    && call.req.payload.value.expiresAt == sys.a.sessions[call.req.sessionId].expiresAt
    && call.startedAt < call.req.payload.value.expiresAt
  }

  ghost predicate Punctual(sys: Sys) {
    && (forall call | call in sys.inflight :: InTime(sys, call))
    && (forall c | c in sys.commits ::
          c.id in sys.a.sessions && c.at < sys.a.sessions[c.id].expiresAt && c.madeAt < sys.a.sessions[c.id].expiresAt)
  }

  lemma ExpiryKept(cfg: Config, sys: Sys, e: Event, id: string)
    requires id in sys.a.sessions
    ensures id in Step(cfg, sys, e).a.sessions
    ensures Step(cfg, sys, e).a.sessions[id].expiresAt == sys.a.sessions[id].expiresAt
  {
    var k := Classify(cfg, sys, e);
    if k.Silent? {
      assert QuietSession(sys.a.sessions[id], Step(cfg, sys, e).a.sessions[id]);
    }
  }

  lemma BegunInTime(cfg: Config, sys: Sys, req: Request, now: int)
    requires Begin(cfg, sys.a, req, now).Ok?
    ensures InTime(sys, Begin(cfg, sys.a, req, now).value)
  {
  }

  lemma PunctualStep(cfg: Config, sys: Sys, e: Event)
    requires Punctual(sys)
    ensures Punctual(Step(cfg, sys, e))
  {
    var next := Step(cfg, sys, e);
    var k := Classify(cfg, sys, e);
    forall call | call in next.inflight ensures InTime(next, call) {
      BegunHasNonce(cfg, sys, e, call);
      if call !in sys.inflight {
        BegunInTime(cfg, sys, e.req, e.now);
      }
      assert InTime(sys, call);
      ExpiryKept(cfg, sys, e, call.req.sessionId);
    }
    forall c | c in next.commits ensures c.id in next.a.sessions
        && c.at < next.a.sessions[c.id].expiresAt && c.madeAt < next.a.sessions[c.id].expiresAt {
      if c in sys.commits {
        ExpiryKept(cfg, sys, e, c.id);
      } else {
        if e.DoFinish? {
          assert InTime(sys, e.call);
        }
        ExpiryKept(cfg, sys, e, k.id);
      }
    }
  }

  lemma {:induction false} PunctualRun(cfg: Config, sys: Sys, es: seq<Event>)
    requires Punctual(sys)
    ensures Punctual(Run(cfg, sys, es))
    decreases |es|
  {
    if es != [] {
      PunctualStep(cfg, sys, es[0]);
      PunctualRun(cfg, Step(cfg, sys, es[0]), es[1..]);
    }
  }

  /** In every run, suspended calls included, a commit is started and made before its session
      expires. */
  lemma CommitsPrecedeExpiry(cfg: Config, es: seq<Event>, i: nat)
    requires i < |Run(cfg, INITIAL, es).commits|
    ensures var sys := Run(cfg, INITIAL, es); var c := sys.commits[i];
      && c.id in sys.a.sessions
      && c.at < sys.a.sessions[c.id].expiresAt && c.madeAt < sys.a.sessions[c.id].expiresAt
  {
    PunctualRun(cfg, INITIAL, es);
    assert Run(cfg, INITIAL, es).commits[i] in Run(cfg, INITIAL, es).commits;
  }

  // ---- The guards can fail -----------------------------------------------

  lemma SettleSucceeds(cfg: Config, a: Account, id: string, nonce: nat, amount: nat, now: int)
    requires id in a.sessions && Affordable(cfg, a, a.sessions[id], amount, now)
    ensures Settle(cfg, a, id, nonce, amount, now, false)
         == (Commit(cfg, Rolled(cfg, a, now), id, nonce, amount, now), Ok(Receipt(id, nonce, amount)))
    ensures var s, t := a.sessions[id], Commit(cfg, Rolled(cfg, a, now), id, nonce, amount, now).sessions[id];
      t.spent == s.spent + amount && t.maxDaily == s.maxDaily && t.maxPerTx == s.maxPerTx
  {
  }

  /** Room for the amount twice: under one per-transaction ceiling, both daily ones. */
  ghost predicate AffordableTwice(cfg: Config, a: Account, s: Session, amount: nat, now: int) {
    && amount <= s.maxPerTx && s.spent + 2 * amount <= s.maxDaily
    && (cfg.policy.Limited? ==> Rolled(cfg, a, now).spentInWindow + 2 * amount <= cfg.policy.maxDaily)
  }

  lemma SecondFits(cfg: Config, a: Account, id: string, nonce: nat, amount: nat, now: int)
    requires id in a.sessions && AffordableTwice(cfg, a, a.sessions[id], amount, now)
    ensures Affordable(cfg, a, a.sessions[id], amount, now)
    ensures var b := Commit(cfg, Rolled(cfg, a, now), id, nonce, amount, now);
      Affordable(cfg, b, b.sessions[id], amount, now)
  {
  }

  /** A call in flight that the account can afford commits. */
  lemma FinishCommits(cfg: Config, sys: Sys, call: Suspended, amount: nat, now: int)
    requires call in sys.inflight && call.startedAt == now
    requires call.req.payload.Some? && BindSignature(call.req, now) == Ok(amount)
    requires call.req.sessionId in sys.a.sessions
    requires Affordable(cfg, sys.a, sys.a.sessions[call.req.sessionId], amount, now)
    ensures var next := Step(cfg, sys, DoFinish(call, now)); var n := |sys.commits|;
      && next.a == Commit(cfg, Rolled(cfg, sys.a, now), call.req.sessionId, call.nonce, amount, now)
      && next.inflight == sys.inflight - multiset{call}
      && |next.commits| == n + 1 && next.commits[..n] == sys.commits
      && next.commits[n].id == call.req.sessionId && next.commits[n].nonce == call.nonce
  {
    SettleSucceeds(cfg, sys.a, call.req.sessionId, call.nonce, amount, now);
  }

  /** Two calls suspended under one nonce both commit it, given room for both. */
  lemma SuspendedCallsShareNonce(cfg: Config, sys: Sys, req: Request, now: int)
    requires Begin(cfg, sys.a, req, now).Ok? && BindSignature(req, now).Ok?
    requires AffordableTwice(cfg, sys.a, sys.a.sessions[req.sessionId], BindSignature(req, now).value, now)
    ensures var call := Begin(cfg, sys.a, req, now).value;
      var begun := Step(cfg, Step(cfg, sys, DoBegin(req, now)), DoBegin(req, now));
      var done := Step(cfg, Step(cfg, begun, DoFinish(call, now)), DoFinish(call, now));
      var n := |sys.commits|;
      && |done.commits| == n + 2
      && done.commits[n].id == done.commits[n + 1].id == req.sessionId
      && done.commits[n].nonce == done.commits[n + 1].nonce == call.nonce
  {
    var call, amount := Begin(cfg, sys.a, req, now).value, BindSignature(req, now).value;
    var begun := Step(cfg, Step(cfg, sys, DoBegin(req, now)), DoBegin(req, now));
    assert begun.a == sys.a && begun.commits == sys.commits;
    assert begun.inflight == sys.inflight + multiset{call} + multiset{call};
    SecondFits(cfg, sys.a, req.sessionId, call.nonce, amount, now);
    FinishCommits(cfg, begun, call, amount, now);
    var once := Step(cfg, begun, DoFinish(call, now));
    FinishCommits(cfg, once, call, amount, now);
    var n := |sys.commits|;
    assert Step(cfg, once, DoFinish(call, now)).commits[n] == once.commits[n];
  }
}
