/**
 Clients and a Keeper over a network that may drop, repeat, reorder and alter messages. The
 message code is ideal: whoever does not hold the secret cannot produce one for a new text.
 Handlers of many requests interleave between their steps.
 */
module RemoteSigningRuns {
  import opened Common
  import opened JsonText
  import opened CanonicalJson
  import opened RemoteSigning

  /** What is fixed for a run. `custody` checks a token at a time; `nonceKey` is the text a
      nonce is remembered by; `dateOf` is the day of a time. */
  datatype Setting = Setting(
    names: Names, keyring: map<Text, Json>, reading: Reading, ttlMs: int,
    custody: (Json, int) -> Option<Text>, nonceKey: Json -> Text, dateOf: int -> int)

  datatype Phase = Admitted | Authorized(allowedAt: int) | Finished

  /** A request in the Keeper's hands. */
  datatype Job = Job(req: Request, agent: Text, admittedAt: int, phase: Phase)

  datatype Signed = Signed(job: nat, req: Request, agent: Text, admittedAt: int, allowedAt: int, signedAt: int,
                           approved: bool, response: Response)

  /** An amount authorised under a daily limit. */
  datatype Charge = Charge(agent: Text, date: int, amount: int)

  datatype Accepted = Accepted(call: nat, response: Response)

  datatype Sys = Sys(
    calls: seq<Request>, accepted: seq<Accepted>,
    seen: map<Text, int>, ledger: map<Text, Daily>, jobs: seq<Job>, signed: seq<Signed>, charges: seq<Charge>,
    clock: int)

  datatype Action =
    | Send(at: int, req: Request)
    | Deliver(at: int, req: Request)
    | Authorize(at: int, job: nat)
    | Sign(at: int, job: nat, approved: bool, signature: Text, digest: Json)
    | Receive(at: int, call: nat, response: Response)

  // ---- The surroundings --------------------------------------------------

  /** A text whose code can be shown: only those an honest party computed one for. */
  ghost predicate Authentic(s: Setting, sys: Sys, text: Text) {
    || (exists i | 0 <= i < |sys.calls| :: RequestText(s.names, sys.calls[i]) == text)
    || (exists j | 0 <= j < |sys.signed| :: ResponseText(s.names, sys.signed[j].response) == text)
  }

  /** The client names the agent of its session, and never reuses a nonce. */
  ghost predicate HonestCall(s: Setting, sys: Sys, req: Request) {
    && WireRequest(req) && WellShaped(s.names, req) && req.agentId == Field(req.session, s.names.agentId)
    && forall i | 0 <= i < |sys.calls| :: sys.calls[i].nonce != req.nonce
  }

  ghost predicate Possible(s: Setting, sys: Sys, a: Action) {
    && sys.clock <= a.at
    && match a
       case Send(_, req) => HonestCall(s, sys, req)
       case Deliver(_, req) => WireRequest(req)
       case Authorize(_, job) => job < |sys.jobs| && sys.jobs[job].phase.Admitted?
       case Sign(_, job, _, _, digest) => job < |sys.jobs| && sys.jobs[job].phase.Authorized? && OnWire(digest)
       case Receive(_, call, response) => call < |sys.calls| && WireResponse(response)
  }

  // ---- The steps ---------------------------------------------------------

  /** Shape, message code, custody and replay, in this order. */
  ghost function AfterDeliver(s: Setting, sys: Sys, req: Request, at: int): Sys {
    if !WellShaped(s.names, req) || !Authentic(s, sys, RequestText(s.names, req)) then sys
    else
      var agent := s.custody(req.token, at);
      if agent.None? then sys else
        var (seen, ok) := CheckReplay(sys.seen, s.ttlMs, s.nonceKey(req.nonce), at);
        if !ok then sys.(seen := seen)
        else sys.(seen := seen, jobs := sys.jobs + [Job(req, agent.value, at, Admitted)])
  }

  function AfterAuthorize(s: Setting, sys: Sys, job: nat, at: int): Sys
    requires job < |sys.jobs|
  {
    var j := sys.jobs[job];
    var (ledger, allowed) :=
      CheckPolicy(sys.ledger, s.keyring, s.reading, j.agent, j.req.session, j.req.intent, s.dateOf(at), at);
    var t, a := s.reading.terms(MeaningOf(j.req.session, {})), s.reading.ask(j.req.intent);
    sys.(ledger := ledger,
         jobs := sys.jobs[job := j.(phase := if allowed then Authorized(at) else Finished)],
         charges := if allowed && IsCapped(t, a) then
                      sys.charges + [Charge(j.agent, s.dateOf(at), a.amount.n)]
                    else
                      sys.charges)
  }

  function AfterSign(sys: Sys, job: nat, at: int, approved: bool, signature: Text, digest: Json): Sys
    requires job < |sys.jobs| && sys.jobs[job].phase.Authorized?
  {
    var j := sys.jobs[job];
    var done := sys.(jobs := sys.jobs[job := j.(phase := Finished)]);
    if !approved || signature == [] then done else
      done.(signed := sys.signed + [Signed(job, j.req, j.agent, j.admittedAt, j.phase.allowedAt, at, approved,
                                           Response(signature, digest, j.req.requestedAt, j.req.nonce))])
  }

  ghost function AfterReceive(s: Setting, sys: Sys, call: nat, response: Response): Sys
    requires call < |sys.calls|
  {
    if response.signature == []
        || !Authentic(s, sys, ResponseText(s.names, response)) || response.nonce != sys.calls[call].nonce
    then sys
    else sys.(accepted := sys.accepted + [Accepted(call, response)])
  }

  ghost function Step(s: Setting, sys: Sys, a: Action): Sys
    requires Possible(s, sys, a)
  {
    var next := match a
      case Send(_, req) => sys.(calls := sys.calls + [req])
      case Deliver(at, req) => AfterDeliver(s, sys, req, at)
      case Authorize(at, job) => AfterAuthorize(s, sys, job, at)
      case Sign(at, job, approved, signature, digest) => AfterSign(sys, job, at, approved, signature, digest)
      case Receive(_, call, response) => AfterReceive(s, sys, call, response);
    next.(clock := a.at)
  }

  ghost predicate AllPossible(s: Setting, sys: Sys, actions: seq<Action>)
    decreases |actions|
  {
    actions == [] || (Possible(s, sys, actions[0]) && AllPossible(s, Step(s, sys, actions[0]), actions[1..]))
  }

  ghost function Run(s: Setting, sys: Sys, actions: seq<Action>): Sys
    requires AllPossible(s, sys, actions)
    decreases |actions|
  {
    if actions == [] then sys else Run(s, Step(s, sys, actions[0]), actions[1..])
  }

  // ---- Agreement ---------------------------------------------------------

  ghost predicate Sent(sys: Sys, req: Request) {
    exists i | 0 <= i < |sys.calls| :: sys.calls[i] == req
  }

  /** What the Keeper had checked when it signed. */
  ghost predicate Vetted(s: Setting, x: Signed) {
    && Complete(s.names, x.req)
    && s.custody(x.req.token, x.admittedAt) == Some(x.agent)
    && SameSession(s.keyring, x.agent, x.req.session)
    && Grants(s.reading.terms(MeaningOf(x.req.session, {})), s.reading.ask(x.req.intent), x.allowedAt)
    && x.admittedAt <= x.allowedAt && x.approved
  }

  ghost predicate CallsInv(s: Setting, sys: Sys) {
    && (forall i | 0 <= i < |sys.calls| ::
          WireRequest(sys.calls[i]) && sys.calls[i].agentId == Field(sys.calls[i].session, s.names.agentId))
    && (forall i, j | 0 <= i < j < |sys.calls| :: sys.calls[i].nonce != sys.calls[j].nonce)
  }

  ghost predicate JobInv(s: Setting, sys: Sys, j: Job) {
    && WireRequest(j.req) && Sent(sys, j.req) && Complete(s.names, j.req)
    && s.custody(j.req.token, j.admittedAt) == Some(j.agent) && j.admittedAt <= sys.clock
    && (j.phase.Authorized? ==>
          j.admittedAt <= j.phase.allowedAt && SameSession(s.keyring, j.agent, j.req.session)
          && Grants(s.reading.terms(MeaningOf(j.req.session, {})), s.reading.ask(j.req.intent), j.phase.allowedAt))
  }

  ghost predicate SignedInv(s: Setting, sys: Sys, x: Signed) {
    && Sent(sys, x.req) && Vetted(s, x) && WireResponse(x.response)
    && x.response.nonce == x.req.nonce && x.response.requestedAt == x.req.requestedAt
    && x.job < |sys.jobs| && sys.jobs[x.job].phase.Finished?
    && sys.jobs[x.job].req == x.req && sys.jobs[x.job].admittedAt == x.admittedAt
  }

  ghost predicate Matches(sys: Sys, a: Accepted, k: nat) {
    k < |sys.signed| && sys.signed[k].response == a.response
  }

  ghost predicate AcceptedInv(sys: Sys, a: Accepted) {
    && a.call < |sys.calls| && a.response.nonce == sys.calls[a.call].nonce
    && exists k :: Matches(sys, a, k)
  }

  ghost predicate Inv(s: Setting, sys: Sys) {
    && CallsInv(s, sys)
    && (forall i | 0 <= i < |sys.jobs| :: JobInv(s, sys, sys.jobs[i]))
    && (forall i | 0 <= i < |sys.signed| :: SignedInv(s, sys, sys.signed[i]))
    && (forall i | 0 <= i < |sys.accepted| :: AcceptedInv(sys, sys.accepted[i]))
    && (forall i, j | 0 <= i < j < |sys.signed| :: sys.signed[i].job != sys.signed[j].job)
  }

  /** An authentic request was sent by a client: no response can stand in for it. */
  lemma AuthenticRequest(s: Setting, sys: Sys, req: Request)
    requires Distinguish(s.names) && Inv(s, sys) && WireRequest(req) && Authentic(s, sys, RequestText(s.names, req))
    ensures Sent(sys, req)
  {
    if j :| 0 <= j < |sys.signed| && ResponseText(s.names, sys.signed[j].response) == RequestText(s.names, req) {
      assert SignedInv(s, sys, sys.signed[j]);
      DirectionsDiffer(s.names, req, sys.signed[j].response);
    } else {
      var i :| 0 <= i < |sys.calls| && RequestText(s.names, sys.calls[i]) == RequestText(s.names, req);
      RequestTextBinds(s.names, sys.calls[i], req);
    }
  }

  /** An authentic response was signed by the Keeper. */
  lemma AuthenticResponse(s: Setting, sys: Sys, response: Response) returns (k: nat)
    requires Distinguish(s.names) && Inv(s, sys) && WireResponse(response)
        && Authentic(s, sys, ResponseText(s.names, response))
    ensures k < |sys.signed| && sys.signed[k].response == response
  {
    if i :| 0 <= i < |sys.calls| && RequestText(s.names, sys.calls[i]) == ResponseText(s.names, response) {
      DirectionsDiffer(s.names, sys.calls[i], response);
    } else {
      k :| 0 <= k < |sys.signed| && ResponseText(s.names, sys.signed[k].response) == ResponseText(s.names, response);
      assert SignedInv(s, sys, sys.signed[k]);
      ResponseTextBinds(s.names, sys.signed[k].response, response);
    }
  }

  // ---- Every step keeps it -----------------------------------------------

  ghost predicate Ready(s: Setting, sys: Sys, a: Action) {
    Distinguish(s.names) && Inv(s, sys) && Possible(s, sys, a)
  }

  /** What no step takes back. */
  ghost predicate Grows(sys: Sys, next: Sys) {
    && sys.clock <= next.clock
    && |sys.calls| <= |next.calls| && sys.calls == next.calls[..|sys.calls|]
    && |sys.signed| <= |next.signed| && sys.signed == next.signed[..|sys.signed|]
  }

  lemma SentGrows(sys: Sys, next: Sys, req: Request)
    requires Grows(sys, next) && Sent(sys, req)
    ensures Sent(next, req)
  {
    var i :| 0 <= i < |sys.calls| && sys.calls[i] == req;
    assert next.calls[i] == sys.calls[i];
  }

  lemma StepGrows(s: Setting, sys: Sys, a: Action)
    requires Possible(s, sys, a)
    ensures Grows(sys, Step(s, sys, a))
  {
  }

  lemma CallsStep(s: Setting, sys: Sys, a: Action)
    requires Ready(s, sys, a)
    ensures CallsInv(s, Step(s, sys, a))
  {
    if !a.Send? {
      CallsUntouched(s, sys, a);
    }
  }

  lemma CallsUntouched(s: Setting, sys: Sys, a: Action)
    requires Possible(s, sys, a) && !a.Send?
    ensures Step(s, sys, a).calls == sys.calls
  {
  }

  /** Where a job comes from: it was there, or it was admitted now. */
  lemma JobOrigin(s: Setting, sys: Sys, a: Action, i: nat)
    requires Possible(s, sys, a) && i < |Step(s, sys, a).jobs|
    ensures var next := Step(s, sys, a); var j := next.jobs[i];
      if i < |sys.jobs| then
        var was := sys.jobs[i];
        && j.(phase := was.phase) == was
        && (j.phase == was.phase || j.phase.Finished?
            || (a.Authorize? && was.phase.Admitted? && j.phase == Authorized(a.at)
              && CheckPolicy(sys.ledger, s.keyring, s.reading, j.agent,
                  j.req.session, j.req.intent, s.dateOf(a.at), a.at).1))
        && (was.phase.Finished? ==> j.phase.Finished?)
      else
        a.Deliver? && Authentic(s, sys, RequestText(s.names, a.req)) && WellShaped(s.names, a.req)
        && s.custody(a.req.token, a.at).Some? && j == Job(a.req, s.custody(a.req.token, a.at).value, a.at, Admitted)
  {
  }

  lemma AllowedMeans(s: Setting, sys: Sys, j: Job, at: int)
    requires CheckPolicy(sys.ledger, s.keyring, s.reading, j.agent, j.req.session, j.req.intent, s.dateOf(at), at).1
    ensures SameSession(s.keyring, j.agent, j.req.session)
    ensures Grants(s.reading.terms(MeaningOf(j.req.session, {})), s.reading.ask(j.req.intent), at)
  {
    GrantsExactly(s.reading.terms(MeaningOf(j.req.session, {})), s.reading.ask(j.req.intent), at);
  }

  lemma JobStep(s: Setting, sys: Sys, a: Action, i: nat)
    requires Ready(s, sys, a) && i < |Step(s, sys, a).jobs|
    ensures JobInv(s, Step(s, sys, a), Step(s, sys, a).jobs[i])
  {
    var next := Step(s, sys, a);
    var j := next.jobs[i];
    JobOrigin(s, sys, a, i);
    StepGrows(s, sys, a);
    if i < |sys.jobs| {
      assert JobInv(s, sys, sys.jobs[i]);
      SentGrows(sys, next, j.req);
      if a.Authorize? && j.phase == Authorized(a.at) && sys.jobs[i].phase.Admitted? {
        AllowedMeans(s, sys, j, a.at);
      }
    } else {
      AuthenticRequest(s, sys, a.req);
      SentGrows(sys, next, j.req);
      WellShapedExactly(s.names, a.req);
    }
  }

  /** A signature is of a job authorised before and finished by it. */
  lemma SignedOrigin(s: Setting, sys: Sys, a: Action, i: nat)
    requires Possible(s, sys, a) && |sys.signed| <= i < |Step(s, sys, a).signed|
    ensures a.Sign? && a.approved && i == |sys.signed| && a.job < |sys.jobs| && sys.jobs[a.job].phase.Authorized?
    ensures OnWire(a.digest) && a.job < |Step(s, sys, a).jobs|
        && Step(s, sys, a).jobs[a.job] == sys.jobs[a.job].(phase := Finished)
    ensures var j := sys.jobs[a.job];
      Step(s, sys, a).signed[i] == Signed(a.job, j.req, j.agent, j.admittedAt, j.phase.allowedAt, a.at, true,
                                          Response(a.signature, a.digest, j.req.requestedAt, j.req.nonce))
  {
  }

  lemma SignedStep(s: Setting, sys: Sys, a: Action, i: nat)
    requires Ready(s, sys, a) && i < |Step(s, sys, a).signed|
    ensures SignedInv(s, Step(s, sys, a), Step(s, sys, a).signed[i])
  {
    var next := Step(s, sys, a);
    StepGrows(s, sys, a);
    if i < |sys.signed| {
      var x := sys.signed[i];
      assert next.signed[i] == x && SignedInv(s, sys, x);
      JobsKept(s, sys, a);
      JobOrigin(s, sys, a, x.job);
      SentGrows(sys, next, x.req);
    } else {
      SignedOrigin(s, sys, a, i);
      assert JobInv(s, sys, sys.jobs[a.job]);
      SentGrows(sys, next, sys.jobs[a.job].req);
    }
  }

  lemma JobsKept(s: Setting, sys: Sys, a: Action)
    requires Possible(s, sys, a)
    ensures |sys.jobs| <= |Step(s, sys, a).jobs|
  {
  }

  /** No job is signed twice. */
  lemma OnePerJob(s: Setting, sys: Sys, a: Action, i: nat, j: nat)
    requires Ready(s, sys, a) && i < j < |Step(s, sys, a).signed|
    ensures Step(s, sys, a).signed[i].job != Step(s, sys, a).signed[j].job
  {
    StepGrows(s, sys, a);
    var next := Step(s, sys, a);
    if j < |sys.signed| {
      assert next.signed[i] == sys.signed[i] && next.signed[j] == sys.signed[j];
    } else {
      SignedOrigin(s, sys, a, j);
      assert next.signed[i] == sys.signed[i] && SignedInv(s, sys, sys.signed[i]);
    }
  }

  lemma AcceptedOrigin(s: Setting, sys: Sys, a: Action, i: nat)
    requires Possible(s, sys, a) && i < |Step(s, sys, a).accepted|
    ensures var x := Step(s, sys, a).accepted[i];
      if i < |sys.accepted| then x == sys.accepted[i]
      else
        a.Receive? && x == Accepted(a.call, a.response) && a.call < |sys.calls| && WireResponse(a.response)
        && Authentic(s, sys, ResponseText(s.names, a.response)) && a.response.nonce == sys.calls[a.call].nonce
  {
  }

  lemma AcceptedStep(s: Setting, sys: Sys, a: Action, i: nat)
    requires Ready(s, sys, a) && i < |Step(s, sys, a).accepted|
    ensures AcceptedInv(Step(s, sys, a), Step(s, sys, a).accepted[i])
  {
    var next := Step(s, sys, a);
    var x := next.accepted[i];
    AcceptedOrigin(s, sys, a, i);
    StepGrows(s, sys, a);
    var k: nat;
    if i < |sys.accepted| {
      assert AcceptedInv(sys, x);
      k :| Matches(sys, x, k);
    } else {
      k := AuthenticResponse(s, sys, x.response);
    }
    assert Matches(next, x, k);
    assert next.calls[x.call] == sys.calls[x.call];
  }

  lemma InvStep(s: Setting, sys: Sys, a: Action)
    requires Ready(s, sys, a)
    ensures Inv(s, Step(s, sys, a))
  {
    var next := Step(s, sys, a);
    CallsStep(s, sys, a);
    forall i | 0 <= i < |next.jobs| ensures JobInv(s, next, next.jobs[i]) {
      JobStep(s, sys, a, i);
    }
    forall i | 0 <= i < |next.signed| ensures SignedInv(s, next, next.signed[i]) {
      SignedStep(s, sys, a, i);
    }
    forall i | 0 <= i < |next.accepted| ensures AcceptedInv(next, next.accepted[i]) {
      AcceptedStep(s, sys, a, i);
    }
    forall i, j | 0 <= i < j < |next.signed| ensures next.signed[i].job != next.signed[j].job {
      OnePerJob(s, sys, a, i, j);
    }
  }

  lemma {:induction false} InvRun(s: Setting, sys: Sys, actions: seq<Action>)
    requires Distinguish(s.names) && Inv(s, sys) && AllPossible(s, sys, actions)
    ensures Inv(s, Run(s, sys, actions))
    decreases |actions|
  {
    if actions != [] {
      InvStep(s, sys, actions[0]);
      InvRun(s, Step(s, sys, actions[0]), actions[1..]);
    }
  }

  // ---- What every run guarantees -----------------------------------------

  /** Nothing sent, remembered or charged yet. */
  ghost predicate IsStart(sys: Sys) {
    && sys.calls == [] && sys.accepted == [] && sys.seen == map[] && sys.ledger == map[]
    && sys.jobs == [] && sys.signed == [] && sys.charges == []
  }

  /** The keyring names each session's own agent. */
  ghost predicate KeyringSound(s: Setting) {
    forall agent | agent in s.keyring ::
      Proper(s.keyring[agent]) && Field(s.keyring[agent], s.names.agentId) == JStr(agent)
  }

  /** The agent whose custody was proven is the one the client asked for. */
  lemma AgentIsClients(s: Setting, x: Signed)
    requires KeyringSound(s) && Vetted(s, x) && Proper(x.req.session)
    ensures Field(x.req.session, s.names.agentId) == JStr(x.agent)
  {
    CanonInjective(x.req.session, s.keyring[x.agent], {});
    SameField(s.keyring[x.agent], x.req.session, s.names.agentId, x.agent, {});
  }

  ghost predicate SignedFor(s: Setting, sys: Sys, a: Accepted, x: Signed) {
    && x in sys.signed && a.call < |sys.calls|
    && x.response == a.response && x.req == sys.calls[a.call]
    && sys.calls[a.call].agentId == JStr(x.agent) && Vetted(s, x)
    && x.agent in s.keyring && MeaningOf(x.req.session, {}) == MeaningOf(s.keyring[x.agent], {})
  }

  lemma AcceptedMeans(s: Setting, sys: Sys, a: Accepted) returns (x: Signed)
    requires Inv(s, sys) && KeyringSound(s) && AcceptedInv(sys, a)
    ensures SignedFor(s, sys, a, x)
  {
    var k: nat :| Matches(sys, a, k);
    x := sys.signed[k];
    assert SignedInv(s, sys, x);
    var c :| 0 <= c < |sys.calls| && sys.calls[c] == x.req;
    assert sys.calls[c].nonce == sys.calls[a.call].nonce;
    assert c == a.call;
    AgentIsClients(s, x);
    CanonInjective(x.req.session, s.keyring[x.agent], {});
  }

  /** Whatever a client accepts, the Keeper signed for exactly that client's request: its
      agent, session and intent, after custody, replay, policy and approval. */
  lemma Agreement(s: Setting, start: Sys, actions: seq<Action>, i: nat) returns (x: Signed)
    requires Distinguish(s.names) && KeyringSound(s) && IsStart(start) && AllPossible(s, start, actions)
    requires i < |Run(s, start, actions).accepted|
    ensures SignedFor(s, Run(s, start, actions), Run(s, start, actions).accepted[i], x)
  {
    InvRun(s, start, actions);
    x := AcceptedMeans(s, Run(s, start, actions), Run(s, start, actions).accepted[i]);
  }

  // ---- Replay ------------------------------------------------------------

  function KeyAt(s: Setting, sys: Sys, i: nat): Text
    requires i < |sys.jobs|
  {
    s.nonceKey(sys.jobs[i].req.nonce)
  }

  /** The Keeper remembers a nonce until its time to live has passed. */
  ghost predicate Remembers(s: Setting, sys: Sys, i: nat)
    requires i < |sys.jobs|
  {
    sys.clock < sys.jobs[i].admittedAt + s.ttlMs ==>
      KeyAt(s, sys, i) in sys.seen && sys.seen[KeyAt(s, sys, i)] >= sys.jobs[i].admittedAt + s.ttlMs
  }

  ghost predicate Apart(s: Setting, sys: Sys, i: nat, j: nat)
    requires i < |sys.jobs| && j < |sys.jobs|
  {
    KeyAt(s, sys, i) == KeyAt(s, sys, j) ==> sys.jobs[j].admittedAt >= sys.jobs[i].admittedAt + s.ttlMs
  }

  ghost predicate ReplayInv(s: Setting, sys: Sys) {
    && (forall i | 0 <= i < |sys.jobs| :: Remembers(s, sys, i))
    && (forall i, j | 0 <= i < j < |sys.jobs| :: Apart(s, sys, i, j))
  }

  /** How one step changes what the Keeper remembers. */
  lemma SeenStep(s: Setting, sys: Sys, a: Action, key: Text)
    requires Possible(s, sys, a)
    ensures key in sys.seen && sys.seen[key] > a.at ==>
      key in Step(s, sys, a).seen && Step(s, sys, a).seen[key] == sys.seen[key]
    ensures |Step(s, sys, a).jobs| > |sys.jobs| ==>
      && a.Deliver? && (s.nonceKey(a.req.nonce) in sys.seen ==> sys.seen[s.nonceKey(a.req.nonce)] <= a.at)
      && s.nonceKey(a.req.nonce) in Step(s, sys, a).seen
          && Step(s, sys, a).seen[s.nonceKey(a.req.nonce)] == a.at + s.ttlMs
  {
  }

  lemma RemembersStep(s: Setting, sys: Sys, a: Action, i: nat)
    requires Possible(s, sys, a) && ReplayInv(s, sys) && i < |Step(s, sys, a).jobs|
    ensures Remembers(s, Step(s, sys, a), i)
  {
    JobOrigin(s, sys, a, i);
    if i < |sys.jobs| {
      assert Remembers(s, sys, i);
      SeenStep(s, sys, a, KeyAt(s, sys, i));
    } else {
      SeenStep(s, sys, a, s.nonceKey(a.req.nonce));
    }
  }

  lemma ApartStep(s: Setting, sys: Sys, a: Action, i: nat, j: nat)
    requires Possible(s, sys, a) && ReplayInv(s, sys) && i < j < |Step(s, sys, a).jobs|
    ensures Apart(s, Step(s, sys, a), i, j)
  {
    JobOrigin(s, sys, a, i);
    JobOrigin(s, sys, a, j);
    if j < |sys.jobs| {
      assert Apart(s, sys, i, j);
    } else {
      NewIsLast(s, sys, a, i, j);
      assert Remembers(s, sys, i);
      SeenStep(s, sys, a, KeyAt(s, sys, i));
    }
  }

  lemma NewIsLast(s: Setting, sys: Sys, a: Action, i: nat, j: nat)
    requires Possible(s, sys, a) && i < j < |Step(s, sys, a).jobs| && j >= |sys.jobs|
    ensures i < |sys.jobs|
  {
  }

  lemma ReplayStep(s: Setting, sys: Sys, a: Action)
    requires Possible(s, sys, a) && ReplayInv(s, sys)
    ensures ReplayInv(s, Step(s, sys, a))
  {
    var next := Step(s, sys, a);
    forall i | 0 <= i < |next.jobs| ensures Remembers(s, next, i) {
      RemembersStep(s, sys, a, i);
    }
    forall i, j | 0 <= i < j < |next.jobs| ensures Apart(s, next, i, j) {
      ApartStep(s, sys, a, i, j);
    }
  }

  lemma {:induction false} ReplayRun(s: Setting, sys: Sys, actions: seq<Action>)
    requires ReplayInv(s, sys) && AllPossible(s, sys, actions)
    ensures ReplayInv(s, Run(s, sys, actions))
    decreases |actions|
  {
    if actions != [] {
      ReplayStep(s, sys, actions[0]);
      ReplayRun(s, Step(s, sys, actions[0]), actions[1..]);
    }
  }

  ghost predicate FarApart(s: Setting, x: Signed, y: Signed) {
    s.nonceKey(x.req.nonce) == s.nonceKey(y.req.nonce) ==>
      x.admittedAt >= y.admittedAt + s.ttlMs || y.admittedAt >= x.admittedAt + s.ttlMs
  }

  lemma SignaturesApart(s: Setting, sys: Sys, i: nat, j: nat)
    requires Inv(s, sys) && ReplayInv(s, sys) && i < j < |sys.signed|
    ensures FarApart(s, sys.signed[i], sys.signed[j])
  {
    var x, y := sys.signed[i], sys.signed[j];
    assert SignedInv(s, sys, x) && SignedInv(s, sys, y);
    if x.job < y.job {
      assert Apart(s, sys, x.job, y.job);
    } else {
      assert Apart(s, sys, y.job, x.job);
    }
  }

  /** Two signatures under one nonce are for requests admitted at least a time to live apart,
      so within it each nonce is signed at most once. */
  lemma SignedOncePerNonce(s: Setting, start: Sys, actions: seq<Action>, i: nat, j: nat)
    requires Distinguish(s.names) && IsStart(start) && AllPossible(s, start, actions)
    requires i < j < |Run(s, start, actions).signed|
    ensures FarApart(s, Run(s, start, actions).signed[i], Run(s, start, actions).signed[j])
  {
    InvRun(s, start, actions);
    ReplayRun(s, start, actions);
    SignaturesApart(s, Run(s, start, actions), i, j);
  }

  /** With signing at most `wait` after admission, two signatures under one nonce are at least
      ttlMs - wait apart. */
  lemma SignedApartInTime(s: Setting, start: Sys, actions: seq<Action>, i: nat, j: nat, wait: int)
    requires Distinguish(s.names) && IsStart(start) && AllPossible(s, start, actions)
    requires i < j < |Run(s, start, actions).signed|
    requires forall k | k == i || k == j :: var x := Run(s, start, actions).signed[k];
      x.admittedAt <= x.signedAt <= x.admittedAt + wait
    requires var signed := Run(s, start, actions).signed;
      s.nonceKey(signed[i].req.nonce) == s.nonceKey(signed[j].req.nonce)
    ensures var signed := Run(s, start, actions).signed;
      signed[j].signedAt - signed[i].signedAt >= s.ttlMs - wait
          || signed[i].signedAt - signed[j].signedAt >= s.ttlMs - wait
  {
    SignedOncePerNonce(s, start, actions, i, j);
  }

  /** A request the Keeper would sign now and again one time to live from now. */
  ghost predicate Signable(s: Setting, req: Request, agent: Text) {
    && WireRequest(req) && WellShaped(s.names, req) && req.agentId == Field(req.session, s.names.agentId)
    && SameSession(s.keyring, agent, req.session)
    && forall at | at == 0 || at == s.ttlMs ::
         s.custody(req.token, at) == Some(agent)
         && Grants(s.reading.terms(MeaningOf(req.session, {})), s.reading.ask(req.intent), at)
  }

  ghost predicate Leads(s: Setting, sys: Sys, actions: seq<Action>, end: Sys) {
    AllPossible(s, sys, actions) && Run(s, sys, actions) == end
  }

  lemma LeadsOn(s: Setting, sys: Sys, a: Action, rest: seq<Action>, end: Sys)
    requires Possible(s, sys, a) && Leads(s, Step(s, sys, a), rest, end)
    ensures Leads(s, sys, [a] + rest, end)
  {
    assert ([a] + rest)[1..] == rest;
  }

  lemma DeliverAdmits(s: Setting, sys: Sys, req: Request, agent: Text, at: int)
    requires WireRequest(req) && WellShaped(s.names, req) && Sent(sys, req) && sys.clock <= at
    requires s.custody(req.token, at) == Some(agent)
    requires s.nonceKey(req.nonce) in sys.seen ==> sys.seen[s.nonceKey(req.nonce)] <= at
    ensures var next := Step(s, sys, Deliver(at, req));
      && next.jobs == sys.jobs + [Job(req, agent, at, Admitted)]
      && next.seen == Pruned(sys.seen, at)[s.nonceKey(req.nonce) := at + s.ttlMs]
      && next == sys.(jobs := next.jobs, seen := next.seen, clock := at)
  {
    assert Authentic(s, sys, RequestText(s.names, req));
  }

  lemma AuthorizeAllows(s: Setting, sys: Sys, job: nat, at: int)
    requires job < |sys.jobs| && sys.jobs[job].phase.Admitted? && sys.clock <= at
    requires SameSession(s.keyring, sys.jobs[job].agent, sys.jobs[job].req.session)
    requires Grants(s.reading.terms(MeaningOf(sys.jobs[job].req.session, {})),
        s.reading.ask(sys.jobs[job].req.intent), at)
    requires !IsCapped(s.reading.terms(MeaningOf(sys.jobs[job].req.session, {})),
        s.reading.ask(sys.jobs[job].req.intent))
    ensures Step(s, sys, Authorize(at, job))
         == sys.(jobs := sys.jobs[job := sys.jobs[job].(phase := Authorized(at))], clock := at)
  {
    var req := sys.jobs[job].req;
    GrantsExactly(s.reading.terms(MeaningOf(req.session, {})), s.reading.ask(req.intent), at);
  }

  /** A request in hand that is authorised and signed at once. */
  lemma ApproveAndSign(s: Setting, sys: Sys, job: nat, signature: Text, digest: Json)
    returns (actions: seq<Action>, end: Sys)
    requires job < |sys.jobs| && sys.jobs[job].phase.Admitted?
    requires Signable(s, sys.jobs[job].req, sys.jobs[job].agent) && sys.clock == s.ttlMs
    requires var req := sys.jobs[job].req;
      !IsCapped(s.reading.terms(MeaningOf(req.session, {})), s.reading.ask(req.intent))
    requires signature != [] && OnWire(digest)
    ensures Leads(s, sys, actions, end) && |end.signed| == |sys.signed| + 1
    ensures forall i | 0 <= i < |sys.signed| :: end.signed[i] == sys.signed[i]
    ensures var j, x := sys.jobs[job], end.signed[|sys.signed|];
      x.req == j.req && x.admittedAt == j.admittedAt && x.signedAt == sys.clock
  {
    AuthorizeAllows(s, sys, job, sys.clock);
    var s1 := Step(s, sys, Authorize(sys.clock, job));
    end := Step(s, s1, Sign(sys.clock, job, true, signature, digest));
    LeadsOn(s, s1, Sign(sys.clock, job, true, signature, digest), [], end);
    actions := [Sign(sys.clock, job, true, signature, digest)] + [];
    LeadsOn(s, sys, Authorize(sys.clock, job), actions, end);
    actions := [Authorize(sys.clock, job)] + actions;
  }

  /** A request authorised and not yet signed: it is signed, repeated once its nonce is
      forgotten, and signed again. */
  lemma SignAgain(s: Setting, sys: Sys, req: Request, agent: Text, signature: Text, digest: Json, wait: int)
    returns (actions: seq<Action>, end: Sys)
    requires sys.clock == 0 <= wait <= s.ttlMs && sys.signed == [] && Sent(sys, req) && Signable(s, req, agent)
    requires sys.jobs == [Job(req, agent, 0, Authorized(0))]
    requires sys.seen == map[s.nonceKey(req.nonce) := s.ttlMs]
    requires !IsCapped(s.reading.terms(MeaningOf(req.session, {})), s.reading.ask(req.intent))
    requires signature != [] && OnWire(digest)
    ensures Leads(s, sys, actions, end) && |end.signed| == 2 && end.signed[0].req == end.signed[1].req == req
    ensures end.signed[0].admittedAt == 0 && end.signed[0].signedAt == wait
    ensures end.signed[1].admittedAt == end.signed[1].signedAt == s.ttlMs
  {
    var ttl := s.ttlMs;
    var s1 := Step(s, sys, Sign(wait, 0, true, signature, digest));
    assert Sent(s1, req);
    DeliverAdmits(s, s1, req, agent, ttl);
    var s2 := Step(s, s1, Deliver(ttl, req));
    assert s2.jobs[1] == Job(req, agent, ttl, Admitted);
    actions, end := ApproveAndSign(s, s2, 1, signature, digest);
    LeadsOn(s, s1, Deliver(ttl, req), actions, end);
    actions := [Deliver(ttl, req)] + actions;
    LeadsOn(s, sys, Sign(wait, 0, true, signature, digest), actions, end);
    actions := [Sign(wait, 0, true, signature, digest)] + actions;
  }

  /** And that is reached for every wait up to the time to live, at which one nonce is signed
      twice at one moment: the request is repeated when its nonce is forgotten. */
  lemma SlowApprovalSignsTwice(s: Setting, start: Sys, req: Request, agent: Text, signature: Text,
                               digest: Json, wait: int)
    returns (actions: seq<Action>, end: Sys)
    requires IsStart(start) && start.clock == 0 <= wait <= s.ttlMs && Signable(s, req, agent)
    requires !IsCapped(s.reading.terms(MeaningOf(req.session, {})), s.reading.ask(req.intent))
    requires signature != [] && OnWire(digest)
    ensures Leads(s, start, actions, end) && |end.signed| == 2 && end.signed[0].req == end.signed[1].req == req
    ensures end.signed[0].signedAt == end.signed[0].admittedAt + wait
        && end.signed[1].signedAt == end.signed[1].admittedAt
    ensures end.signed[1].signedAt - end.signed[0].signedAt == s.ttlMs - wait
  {
    var s1 := Step(s, start, Send(0, req));
    assert s1.calls[0] == req && Sent(s1, req);
    DeliverAdmits(s, s1, req, agent, 0);
    var s2 := Step(s, s1, Deliver(0, req));
    assert s2.jobs == [Job(req, agent, 0, Admitted)];
    AuthorizeAllows(s, s2, 0, 0);
    var s3 := Step(s, s2, Authorize(0, 0));
    assert s3.jobs == [Job(req, agent, 0, Authorized(0))];
    actions, end := SignAgain(s, s3, req, agent, signature, digest, wait);
    LeadsOn(s, s2, Authorize(0, 0), actions, end);
    actions := [Authorize(0, 0)] + actions;
    LeadsOn(s, s1, Deliver(0, req), actions, end);
    actions := [Deliver(0, req)] + actions;
    LeadsOn(s, start, Send(0, req), actions, end);
    actions := [Send(0, req)] + actions;
  }

  // ---- Daily limits ------------------------------------------------------

  function Charged(charges: seq<Charge>, agent: Text, date: int): int {
    if charges == [] then 0 else
      var last := charges[|charges| - 1];
      Charged(charges[..|charges| - 1], agent, date)
      + if last.agent == agent && last.date == date then last.amount else 0
  }

  ghost predicate Calendar(s: Setting) {
    forall t, u :: t <= u ==> s.dateOf(t) <= s.dateOf(u)
  }

  /** The ledger holds an agent's latest day, which is no later than today; later days have
      no charges. */
  ghost predicate LedgerInv(s: Setting, sys: Sys, agent: Text) {
    && (agent in sys.ledger ==>
          sys.ledger[agent].total == Charged(sys.charges, agent, sys.ledger[agent].date)
          && sys.ledger[agent].date <= s.dateOf(sys.clock))
    && forall date :: (agent in sys.ledger ==> date > sys.ledger[agent].date) ==> Charged(sys.charges, agent, date) == 0
  }

  /** The most an agent's keyring session lets it be charged a day. */
  function Limit(s: Setting, agent: Text): Cap {
    if agent in s.keyring then s.reading.terms(MeaningOf(s.keyring[agent], {})).maxDaily else NoCap
  }

  ghost predicate BudgetInv(s: Setting, sys: Sys, agent: Text) {
    forall date :: Charged(sys.charges, agent, date) > 0 ==>
        Limit(s, agent).Cap? && Charged(sys.charges, agent, date) <= Limit(s, agent).n
  }

  ghost predicate DayInv(s: Setting, sys: Sys) {
    forall agent :: LedgerInv(s, sys, agent) && BudgetInv(s, sys, agent)
  }

  lemma ChargedAppend(charges: seq<Charge>, c: Charge, agent: Text, date: int)
    ensures Charged(charges + [c], agent, date)
         == Charged(charges, agent, date) + if c.agent == agent && c.date == date then c.amount else 0
  {
    assert (charges + [c])[..|charges|] == charges;
  }

  /** The three ways an authorisation leaves ledger and charges. */
  ghost predicate Booked(s: Setting, sys: Sys, next: Sys, agent: Text, today: Daily, n: int, limit: Cap) {
    || (next.ledger == sys.ledger && next.charges == sys.charges)
    || (next.ledger == sys.ledger[agent := today] && next.charges == sys.charges)
    || (&& next.ledger == sys.ledger[agent := Daily(today.date, today.total + n)]
        && next.charges == sys.charges + [Charge(agent, today.date, n)]
        && n >= 0 && limit.Cap? && today.total + n <= limit.n)
  }

  lemma SameTerms(s: Setting, agent: Text, session: Json)
    requires KeyringSound(s) && Proper(session) && SameSession(s.keyring, agent, session)
    ensures s.reading.terms(MeaningOf(session, {})).maxDaily == Limit(s, agent)
  {
    CanonInjective(session, s.keyring[agent], {});
  }

  /** What the policy check leaves behind, by its answer. */
  lemma PolicyShape(ledger: map<Text, Daily>, keyring: map<Text, Json>, reading: Reading,
                    agent: Text, session: Json, intent: Json, date: int, now: int)
    ensures var (after, allowed) := CheckPolicy(ledger, keyring, reading, agent, session, intent, date, now);
      var t, a, today := reading.terms(MeaningOf(session, {})), reading.ask(intent), Today(ledger, agent, date);
      if allowed && IsCapped(t, a) then
        && SameSession(keyring, agent, session) && a.amount.n >= 0 && today.total + a.amount.n <= t.maxDaily.n
        && after == ledger[agent := Daily(date, today.total + a.amount.n)]
      else after == ledger || after == ledger[agent := today]
  {
  }

  lemma AuthorizeShape(s: Setting, sys: Sys, job: nat, at: int)
    requires job < |sys.jobs|
    ensures var j, next := sys.jobs[job], AfterAuthorize(s, sys, job, at);
      var (ledger, allowed) :=
      CheckPolicy(sys.ledger, s.keyring, s.reading, j.agent, j.req.session, j.req.intent, s.dateOf(at), at);
      var t, a := s.reading.terms(MeaningOf(j.req.session, {})), s.reading.ask(j.req.intent);
      && next.ledger == ledger
      && next.charges == if !allowed || !IsCapped(t, a) then sys.charges else
                           sys.charges + [Charge(j.agent, s.dateOf(at), a.amount.n)]
  {
  }

  /** An authorisation under a daily limit charges the amount, within the limit. */
  lemma AuthorizeCharges(s: Setting, sys: Sys, job: nat, at: int)
    requires job < |sys.jobs| && KeyringSound(s) && Proper(sys.jobs[job].req.session)
    requires AfterAuthorize(s, sys, job, at).charges != sys.charges
    ensures var j, next := sys.jobs[job], AfterAuthorize(s, sys, job, at); var ask := s.reading.ask(j.req.intent);
      && ask.amount.Amount?
      && Booked(s, sys, next, j.agent, Today(sys.ledger, j.agent, s.dateOf(at)), ask.amount.n, Limit(s, j.agent))
  {
    var j := sys.jobs[job];
    AuthorizeShape(s, sys, job, at);
    PolicyShape(sys.ledger, s.keyring, s.reading, j.agent, j.req.session, j.req.intent, s.dateOf(at), at);
    SameTerms(s, j.agent, j.req.session);
  }

  lemma AuthorizeFree(s: Setting, sys: Sys, job: nat, at: int)
    requires job < |sys.jobs| && AfterAuthorize(s, sys, job, at).charges == sys.charges
    ensures var j, next := sys.jobs[job], AfterAuthorize(s, sys, job, at);
      next.ledger == sys.ledger || next.ledger == sys.ledger[j.agent := Today(sys.ledger, j.agent, s.dateOf(at))]
  {
    var j := sys.jobs[job];
    AuthorizeShape(s, sys, job, at);
    PolicyShape(sys.ledger, s.keyring, s.reading, j.agent, j.req.session, j.req.intent, s.dateOf(at), at);
    assert |sys.charges + [Charge(j.agent, 0, 0)]| != |sys.charges|;
  }

  lemma AuthorizeBooks(s: Setting, sys: Sys, job: nat, at: int)
    requires job < |sys.jobs| && KeyringSound(s) && Proper(sys.jobs[job].req.session)
    ensures var j := sys.jobs[job]; var ask := s.reading.ask(j.req.intent);
      Booked(s, sys, AfterAuthorize(s, sys, job, at), j.agent, Today(sys.ledger, j.agent, s.dateOf(at)),
             if ask.amount.Amount? then ask.amount.n else 0, Limit(s, j.agent))
  {
    if AfterAuthorize(s, sys, job, at).charges == sys.charges {
      AuthorizeFree(s, sys, job, at);
    } else {
      AuthorizeCharges(s, sys, job, at);
    }
  }

  lemma BookedKeeps(s: Setting, sys: Sys, next: Sys, agent: Text, at: int, n: int, other: Text)
    requires Calendar(s) && sys.clock <= at && next.clock == at
    requires LedgerInv(s, sys, other) && BudgetInv(s, sys, other)
    requires Booked(s, sys, next, agent, Today(sys.ledger, agent, s.dateOf(at)), n, Limit(s, agent))
    ensures LedgerInv(s, next, other) && BudgetInv(s, next, other)
  {
    var date := s.dateOf(at);
    assert s.dateOf(sys.clock) <= date;
    if next.charges != sys.charges {
      forall d ensures Charged(next.charges, other, d)
          == Charged(sys.charges, other, d) + if agent == other && date == d then n else 0 {
        ChargedAppend(sys.charges, Charge(agent, date, n), other, d);
      }
    }
    if other == agent {
      TodayTotal(s, sys, agent, date);
    }
  }

  /** Today's entry is what was charged today. */
  lemma TodayTotal(s: Setting, sys: Sys, agent: Text, date: int)
    requires LedgerInv(s, sys, agent) && s.dateOf(sys.clock) <= date
    ensures Today(sys.ledger, agent, date) == Daily(date, Charged(sys.charges, agent, date))
  {
  }

  lemma LedgerUntouched(s: Setting, sys: Sys, a: Action)
    requires Possible(s, sys, a) && !a.Authorize?
    ensures Step(s, sys, a).ledger == sys.ledger && Step(s, sys, a).charges == sys.charges
  {
  }

  lemma DayStep(s: Setting, sys: Sys, a: Action)
    requires Calendar(s) && KeyringSound(s) && Ready(s, sys, a) && DayInv(s, sys)
    ensures DayInv(s, Step(s, sys, a))
  {
    var next := Step(s, sys, a);
    if a.Authorize? {
      assert JobInv(s, sys, sys.jobs[a.job]);
      DayAuthorize(s, sys, a.job, a.at);
    } else {
      LedgerUntouched(s, sys, a);
      assert s.dateOf(sys.clock) <= s.dateOf(a.at);
      forall agent ensures LedgerInv(s, next, agent) && BudgetInv(s, next, agent) {
        assert LedgerInv(s, sys, agent) && BudgetInv(s, sys, agent);
      }
    }
  }

  lemma DayAuthorize(s: Setting, sys: Sys, job: nat, at: int)
    requires Calendar(s) && KeyringSound(s) && DayInv(s, sys) && sys.clock <= at
    requires job < |sys.jobs| && Proper(sys.jobs[job].req.session)
    ensures DayInv(s, AfterAuthorize(s, sys, job, at).(clock := at))
  {
    var j, next := sys.jobs[job], AfterAuthorize(s, sys, job, at).(clock := at);
    var ask := s.reading.ask(j.req.intent);
    AuthorizeBooks(s, sys, job, at);
    forall agent ensures LedgerInv(s, next, agent) && BudgetInv(s, next, agent) {
      assert LedgerInv(s, sys, agent) && BudgetInv(s, sys, agent);
      BookedKeeps(s, sys, next, j.agent, at, if ask.amount.Amount? then ask.amount.n else 0, agent);
    }
  }

  lemma {:induction false} DayRun(s: Setting, sys: Sys, actions: seq<Action>)
    requires Calendar(s) && KeyringSound(s) && Distinguish(s.names)
    requires Inv(s, sys) && DayInv(s, sys) && AllPossible(s, sys, actions)
    ensures DayInv(s, Run(s, sys, actions))
    decreases |actions|
  {
    if actions != [] {
      InvStep(s, sys, actions[0]);
      DayStep(s, sys, actions[0]);
      DayRun(s, Step(s, sys, actions[0]), actions[1..]);
    }
  }

  lemma DaysHold(s: Setting, start: Sys, actions: seq<Action>)
    requires Calendar(s) && KeyringSound(s) && Distinguish(s.names) && IsStart(start) && AllPossible(s, start, actions)
    ensures DayInv(s, Run(s, start, actions))
  {
    forall other ensures LedgerInv(s, start, other) && BudgetInv(s, start, other) {
    }
    DayRun(s, start, actions);
  }

  /** What the Keeper authorises for an agent on one day stays within its daily limit. */
  lemma DailyLimitHolds(s: Setting, start: Sys, actions: seq<Action>, agent: Text, date: int)
    requires Calendar(s) && KeyringSound(s) && Distinguish(s.names) && IsStart(start) && AllPossible(s, start, actions)
    requires Limit(s, agent).Cap? && Limit(s, agent).n > 0
    ensures Charged(Run(s, start, actions).charges, agent, date) <= Limit(s, agent).n
  {
    DaysHold(s, start, actions);
    assert BudgetInv(s, Run(s, start, actions), agent);
  }

  // ---- What the Keeper lets through ---------------------------------------

  /** The session is the agent's registered one, its terms grant what is asked, and the
      amount fits the day beside what was charged on it. */
  ghost predicate Authorizable(s: Setting, agent: Text, req: Request, at: int, charged: int) {
    var t, a := s.reading.terms(MeaningOf(req.session, {})), s.reading.ask(req.intent);
    && agent in s.keyring && MeaningOf(req.session, {}) == MeaningOf(s.keyring[agent], {})
    && Grants(t, a, at) && FitsDay(t, a, charged)
  }

  lemma AuthorizedHere(s: Setting, sys: Sys, job: nat, at: int)
    requires job < |sys.jobs| && sys.jobs[job].phase.Admitted? && sys.clock <= at
    requires KeyringSound(s) && Proper(sys.jobs[job].req.session)
    ensures var j, next := sys.jobs[job], Step(s, sys, Authorize(at, job));
      var allowed := Authorizable(s, j.agent, j.req, at, OnDay(sys.ledger, j.agent, s.dateOf(at)));
      && next.jobs == sys.jobs[job := j.(phase := if allowed then Authorized(at) else Finished)]
      && next.calls == sys.calls && next.signed == sys.signed && next.accepted == sys.accepted && next.clock == at
  {
    var j := sys.jobs[job];
    AllowedExactly(sys.ledger, s.keyring, s.reading, j.agent, j.req.session, j.req.intent, s.dateOf(at), at);
  }

  lemma OnDayIsCharged(s: Setting, start: Sys, actions: seq<Action>, agent: Text, at: int)
    requires Calendar(s) && KeyringSound(s) && Distinguish(s.names) && IsStart(start) && AllPossible(s, start, actions)
    requires Run(s, start, actions).clock <= at
    ensures var sys := Run(s, start, actions);
      OnDay(sys.ledger, agent, s.dateOf(at)) == Charged(sys.charges, agent, s.dateOf(at))
  {
    var sys := Run(s, start, actions);
    DaysHold(s, start, actions);
    assert s.dateOf(sys.clock) <= s.dateOf(at) && LedgerInv(s, sys, agent);
    TodayTotal(s, sys, agent, s.dateOf(at));
  }

  /** Over every run: a request in hand is authorised exactly when that holds with all that was
      charged to the agent on the day. */
  lemma AuthorizedExactly(s: Setting, start: Sys, actions: seq<Action>, job: nat, at: int)
    requires Calendar(s) && KeyringSound(s) && Distinguish(s.names) && IsStart(start) && AllPossible(s, start, actions)
    requires Possible(s, Run(s, start, actions), Authorize(at, job))
    ensures var sys := Run(s, start, actions); var j := sys.jobs[job];
      Step(s, sys, Authorize(at, job)).jobs[job].phase == Authorized(at)
      <==> Authorizable(s, j.agent, j.req, at, Charged(sys.charges, j.agent, s.dateOf(at)))
  {
    var sys := Run(s, start, actions);
    InvRun(s, start, actions);
    assert JobInv(s, sys, sys.jobs[job]);
    OnDayIsCharged(s, start, actions, sys.jobs[job].agent, at);
    AuthorizedHere(s, sys, job, at);
  }

  /** A delivered request is taken in hand exactly when it is complete and authentic, its
      custody token holds, and its nonce is not remembered. */
  lemma AdmittedExactly(s: Setting, sys: Sys, req: Request, at: int)
    requires Possible(s, sys, Deliver(at, req))
    ensures var next, key := Step(s, sys, Deliver(at, req)), s.nonceKey(req.nonce);
      && (next.jobs != sys.jobs <==>
            && Complete(s.names, req) && Authentic(s, sys, RequestText(s.names, req))
            && s.custody(req.token, at) != None && !(key in sys.seen && sys.seen[key] > at))
      && (next.jobs != sys.jobs ==>
            next.jobs == sys.jobs + [Job(req, s.custody(req.token, at).value, at, Admitted)])
  {
    WellShapedExactly(s.names, req);
    assert |sys.jobs + [Job(req, [], at, Admitted)]| != |sys.jobs|;
  }

  /** A request in hand is answered exactly once it is approved and the signer gives a
      signature; either way it is done with. */
  lemma SignedExactly(s: Setting, sys: Sys, at: int, job: nat, approved: bool, signature: Text, digest: Json)
    requires Possible(s, sys, Sign(at, job, approved, signature, digest))
    ensures var next, j := Step(s, sys, Sign(at, job, approved, signature, digest)), sys.jobs[job];
      && next.jobs == sys.jobs[job := j.(phase := Finished)]
      && (if approved && signature != [] then
            && |next.signed| == |sys.signed| + 1 && next.signed[..|sys.signed|] == sys.signed
            && var x := next.signed[|sys.signed|];
            && x.req == j.req && x.signedAt == at
            && x.response == Response(signature, digest, j.req.requestedAt, j.req.nonce)
          else next.signed == sys.signed)
  {
  }

  /** A response is accepted for a call exactly when it is authentic, signed and answers the
      call's nonce. */
  lemma AcceptedExactly(s: Setting, sys: Sys, call: nat, response: Response, at: int)
    requires Possible(s, sys, Receive(at, call, response))
    ensures Step(s, sys, Receive(at, call, response)).accepted
         == sys.accepted
            + if response.signature != [] && Authentic(s, sys, ResponseText(s.names, response))
                 && response.nonce == sys.calls[call].nonce
              then [Accepted(call, response)] else []
  {
  }

  /** A request that the Keeper, at that time, admits and authorises. */
  ghost predicate Welcome(s: Setting, sys: Sys, req: Request, agent: Text, at: int) {
    && HonestCall(s, sys, req) && s.custody(req.token, at) == Some(agent)
    && (s.nonceKey(req.nonce) in sys.seen ==> sys.seen[s.nonceKey(req.nonce)] <= at)
    && Authorizable(s, agent, req, at, OnDay(sys.ledger, agent, s.dateOf(at)))
  }

  /** In every state, such a request that is delivered, approved and signed without delay is
      accepted by its client, with the signature given for it. */
  lemma ExchangeCompletes(s: Setting, sys: Sys, req: Request, agent: Text, at: int, signature: Text, digest: Json)
    returns (actions: seq<Action>, end: Sys)
    requires KeyringSound(s) && sys.clock <= at && Welcome(s, sys, req, agent, at)
    requires signature != [] && OnWire(digest)
    ensures Leads(s, sys, actions, end)
    ensures end.accepted
         == sys.accepted + [Accepted(|sys.calls|, Response(signature, digest, req.requestedAt, req.nonce))]
  {
    var s1 := Step(s, sys, Send(at, req));
    assert s1.calls[|sys.calls|] == req && Sent(s1, req);
    DeliverAdmits(s, s1, req, agent, at);
    var s2 := Step(s, s1, Deliver(at, req));
    assert s2.jobs[|sys.jobs|] == Job(req, agent, at, Admitted);
    actions, end := FinishExchange(s, s2, |sys.calls|, |sys.jobs|, signature, digest);
    LeadsOn(s, s1, Deliver(at, req), actions, end);
    actions := [Deliver(at, req)] + actions;
    LeadsOn(s, sys, Send(at, req), actions, end);
    actions := [Send(at, req)] + actions;
  }

  lemma FinishExchange(s: Setting, sys: Sys, call: nat, job: nat, signature: Text, digest: Json)
    returns (actions: seq<Action>, end: Sys)
    requires call < |sys.calls| && job < |sys.jobs| && sys.jobs[job].phase.Admitted?
    requires sys.jobs[job].req == sys.calls[call] && WireRequest(sys.calls[call])
    requires KeyringSound(s) && signature != [] && OnWire(digest)
    requires var j := sys.jobs[job];
      Authorizable(s, j.agent, j.req, sys.clock, OnDay(sys.ledger, j.agent, s.dateOf(sys.clock)))
    ensures Leads(s, sys, actions, end)
    ensures var req := sys.calls[call];
      end.accepted == sys.accepted + [Accepted(call, Response(signature, digest, req.requestedAt, req.nonce))]
  {
    AuthorizedHere(s, sys, job, sys.clock);
    actions, end := SignAndReceive(s, Step(s, sys, Authorize(sys.clock, job)), call, job, signature, digest);
    LeadsOn(s, sys, Authorize(sys.clock, job), actions, end);
    actions := [Authorize(sys.clock, job)] + actions;
  }

  lemma SignAndReceive(s: Setting, sys: Sys, call: nat, job: nat, signature: Text, digest: Json)
    returns (actions: seq<Action>, end: Sys)
    requires call < |sys.calls| && job < |sys.jobs| && sys.jobs[job].phase.Authorized?
    requires sys.jobs[job].req == sys.calls[call] && WireRequest(sys.calls[call])
    requires signature != [] && OnWire(digest)
    ensures Leads(s, sys, actions, end)
    ensures var req := sys.calls[call];
      end.accepted == sys.accepted + [Accepted(call, Response(signature, digest, req.requestedAt, req.nonce))]
  {
    var req := sys.calls[call];
    var response := Response(signature, digest, req.requestedAt, req.nonce);
    var s1 := Step(s, sys, Sign(sys.clock, job, true, signature, digest));
    assert s1.signed[|sys.signed|].response == response;
    AcceptedExactly(s, s1, call, response, sys.clock);
    end := Step(s, s1, Receive(sys.clock, call, response));
    LeadsOn(s, s1, Receive(sys.clock, call, response), [], end);
    actions := [Receive(sys.clock, call, response)] + [];
    LeadsOn(s, sys, Sign(sys.clock, job, true, signature, digest), actions, end);
    actions := [Sign(sys.clock, job, true, signature, digest)] + actions;
  }
}
