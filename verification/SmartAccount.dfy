/**
 The smart-account engine (packages/chain-eth/src/smart-account.js). Every call is a
 function from account to account; the class below runs the same calls on mutable fields.
 Clock readings are parameters, and whether a signature or digest checks out is a bit of
 the request.
 */
module SmartAccount {
  import opened Common

  /** What BigInt(String(x).trim()) makes of a field. */
  datatype Numeral = Absent | Blank | Unparsable | Int(v: int)

  datatype Policy = Unlimited | Limited(maxPerTx: nat, maxDaily: nat)

  datatype Config = Config(
    owner: string, emergencyKey: string, policy: Policy, dayWindowMs: int,
    escalation: set<string>, allowance: set<string>)

  datatype Whitelist = Whitelist(
    chains: Option<seq<string>>, assets: Option<seq<string>>, contracts: Option<seq<string>>,
    methods: Option<seq<string>>, recipients: Option<seq<string>>)

  datatype Session = Session(
    agentId: string, publicKey: Option<string>, evmAddress: Option<string>,
    issuedAt: int, expiresAt: int, whitelist: Whitelist,
    maxPerTx: nat, maxDaily: nat, active: bool, lastNonce: nat, spent: nat)

  datatype Account = Account(
    frozen: bool, paused: bool, sessions: map<string, Session>,
    windowStart: Option<int>, spentInWindow: nat, executions: nat)

  datatype Payload = Payload(
    isIntent: bool, agentId: string, issuedAt: int, expiresAt: int,
    action: string, method_: string, chain: string, asset: string,
    contract: string, recipient: string, nonce: Numeral, amount: Numeral)

  datatype Request = Request(
    payload: Option<Payload>, claimed: Numeral, sessionId: string, nonce: Numeral,
    digestOk: bool, signatureOk: bool)

  datatype Registration = Registration(
    agentId: string, publicKey: Option<string>, evmAddress: Option<string>,
    issuedAt: Option<int>, expiresAt: Option<int>, whitelist: Whitelist,
    maxPerTx: Numeral, maxDaily: Numeral)

  datatype Dimension = ChainList | AssetList | ContractList | MethodList | RecipientList

  datatype Reason =
    | Unauthorized | UnknownSession | BadRegistration | BadCeiling | CannotRaise
    | AccountFrozen | AccountPaused | NotActive | Expired
    | NoPayload | WrongAgent | WrongIssuedAt | WrongExpiresAt
    | SelfEscalation | AllowanceSurface | NotWhitelisted(d: Dimension)
    | InvalidNonce | UnsignedNonce | InvalidSignedNonce | NonceMismatch | NonceReplay
    | BadBinding | NeverSuspends | OverPerTx | OverAccountDaily | OverSessionDaily

  datatype Receipt = Receipt(sessionId: string, nonce: nat, amount: nat)

  const FRESH := Account(false, false, map[], None, 0, 0)

  // ---- Action names ------------------------------------------------------

  /** White space as regular expressions have it, underscore and hyphen. */
  predicate Dropped(c: char) {
    || c == '_' || c == '-' || c == ' ' || '\t' <= c <= '\r' || c == '\U{A0}' || c == '\U{1680}'
    || '\U{2000}' <= c <= '\U{200A}' || c == '\U{2028}' || c == '\U{2029}' || c == '\U{202F}'
    || c == '\U{205F}' || c == '\U{3000}' || c == '\U{FEFF}'
  }

  function Lower(c: char): char {
    if 'A' <= c <= 'Z' then (c - 'A') + 'a' else c
  }

  function NormalizeAction(s: string): string {
    if s == "" then ""
    else if Dropped(s[0]) then NormalizeAction(s[1..])
    else [Lower(s[0])] + NormalizeAction(s[1..])
  }

  /** Spelling a denied action with other case or separators does not help. */
  lemma {:induction false} NormalizeIdempotent(s: string)
    ensures NormalizeAction(NormalizeAction(s)) == NormalizeAction(s)
  {
    if s != "" {
      NormalizeIdempotent(s[1..]);
    }
  }

  /** Normal forms have no separators and no capitals, and stay as they are. */
  lemma {:induction false} NormalFormExactly(s: string)
    ensures NormalizeAction(s) == s <==> forall c | c in s :: !Dropped(c) && !('A' <= c <= 'Z')
    ensures |NormalizeAction(s)| <= |s|
    ensures forall c | c in NormalizeAction(s) :: !Dropped(c) && !('A' <= c <= 'Z')
  {
    if s != "" {
      NormalFormExactly(s[1..]);
      assert s == [s[0]] + s[1..];
    }
  }

  lemma {:induction false} NormalizeConcat(s: string, t: string)
    ensures NormalizeAction(s + t) == NormalizeAction(s) + NormalizeAction(t)
    decreases |s|
  {
    if s == "" {
      assert s + t == t;
    } else {
      assert (s + t)[1..] == s[1..] + t;
      NormalizeConcat(s[1..], t);
    }
  }

  lemma NormalizeAround(s: string, m: string, t: string)
    ensures NormalizeAction(s + m + t) == NormalizeAction(s) + NormalizeAction(m) + NormalizeAction(t)
  {
    NormalizeConcat(s + m, t);
    NormalizeConcat(s, m);
  }

  lemma NormalizeOne(c: char)
    ensures NormalizeAction([c]) == if Dropped(c) then "" else [Lower(c)]
  {
    assert [c][1..] == "";
  }

  lemma Separators(c: char)
    ensures c in {'_', '-', ' ', '\t', '\n', '\r', '\U{A0}', '\U{1680}', '\U{2000}', '\U{200A}', '\U{FEFF}'} ==>
      Dropped(c)
    ensures '0' <= c <= '9' || 'A' <= c <= 'Z' || 'a' <= c <= 'z' ==> !Dropped(c)
  {
  }

  /** A separator anywhere makes no difference. */
  lemma SeparatorIgnored(s: string, c: char, t: string)
    requires Dropped(c)
    ensures NormalizeAction(s + [c] + t) == NormalizeAction(s + t)
  {
    NormalizeAround(s, [c], t);
    NormalizeConcat(s, t);
    NormalizeOne(c);
  }

  /** Nor does the case of a letter, and nothing else is lost. */
  lemma CharacterKept(s: string, c: char, t: string)
    requires !Dropped(c)
    ensures var small := if 'A' <= c <= 'Z' then c - 'A' + 'a' else c;
      NormalizeAction(s + [c] + t) == NormalizeAction(s) + [small] + NormalizeAction(t)
  {
    NormalizeAround(s, [c], t);
    NormalizeOne(c);
  }

  // ---- Privileged calls --------------------------------------------------

  function Ceiling(n: Numeral): Option<nat> {
    if n.Int? && n.v >= 0 then Some(n.v) else None
  }

  predicate Registrable(r: Registration, now: int) {
    && r.agentId != "" && (r.publicKey.Some? || r.evmAddress.Some?)
    && r.issuedAt.Some? && r.issuedAt.value > 0
    && r.expiresAt.Some? && r.expiresAt.value > r.issuedAt.value && r.expiresAt.value > now
    && Ceiling(r.maxPerTx).Some? && Ceiling(r.maxDaily).Some?
  }

  function Register(cfg: Config, a: Account, caller: string, id: string, r: Registration,
                    now: int): (Account, Result<(), Reason>) {
    if caller != cfg.owner then (a, Err(Unauthorized))
    else if id == "" || id in a.sessions || !Registrable(r, now) then (a, Err(BadRegistration))
    else
      var s := Session(r.agentId, r.publicKey, r.evmAddress, r.issuedAt.value, r.expiresAt.value, r.whitelist,
                       Ceiling(r.maxPerTx).value, Ceiling(r.maxDaily).value, true, 0, 0);
      (a.(sessions := a.sessions[id := s]), Ok(()))
  }

  function Revoke(cfg: Config, a: Account, caller: string, id: string): (Account, Result<(), Reason>) {
    if caller != cfg.owner && caller != cfg.emergencyKey then (a, Err(Unauthorized))
    else if id !in a.sessions then (a, Err(UnknownSession))
    else (a.(sessions := a.sessions[id := a.sessions[id].(active := false)]), Ok(()))
  }

  datatype Switch = Pause | Resume | Freeze | Unfreeze

  /** The emergency key brakes; only the owner releases. */
  predicate MaySwitch(cfg: Config, caller: string, w: Switch) {
    match w
    case Pause => caller == cfg.owner || caller == cfg.emergencyKey
    case Resume => caller == cfg.owner
    case Freeze => caller == cfg.emergencyKey
    case Unfreeze => caller == cfg.owner
  }

  function Flip(cfg: Config, a: Account, caller: string, w: Switch): (Account, Result<(), Reason>) {
    if !MaySwitch(cfg, caller, w) then (a, Err(Unauthorized)) else
      match w
      case Pause => (a.(paused := true), Ok(()))
      case Resume => (a.(paused := false), Ok(()))
      case Freeze => (a.(frozen := true), Ok(()))
      case Unfreeze => (a.(frozen := false), Ok(()))
  }

  /** A ceiling given to the emergency brake; a blank one reads as zero. */
  function ReducedCeiling(n: Numeral, current: nat): Result<nat, Reason> {
    match n
    case Absent => Ok(current)
    case Blank => Ok(0)
    case Unparsable => Err(BadCeiling)
    case Int(v) => if v < 0 then Err(BadCeiling) else if v > current then Err(CannotRaise) else Ok(v)
  }

  /** A bad daily ceiling still leaves the per-transaction one reduced. */
  function Reduce(cfg: Config, a: Account, caller: string, id: string, perTx: Numeral,
                  daily: Numeral): (Account, Result<(), Reason>) {
    if caller != cfg.emergencyKey then (a, Err(Unauthorized))
    else if id !in a.sessions then (a, Err(UnknownSession))
    else
      var p := ReducedCeiling(perTx, a.sessions[id].maxPerTx);
      if p.Err? then (a, Err(p.error)) else
        var s := a.sessions[id].(maxPerTx := p.value);
        var d := ReducedCeiling(daily, s.maxDaily);
        if d.Err? then (a.(sessions := a.sessions[id := s]), Err(d.error))
        else (a.(sessions := a.sessions[id := s.(maxDaily := d.value)]), Ok(()))
  }

  // ---- Agent execution: the checks before the signature -------------------

  predicate Allowed(list: Option<seq<string>>, x: string) {
    list.None? || x in list.value
  }

  function WhitelistBreach(w: Whitelist, p: Payload): Option<Dimension> {
    if !Allowed(w.chains, p.chain) then Some(ChainList)
    else if !Allowed(w.assets, p.asset) then Some(AssetList)
    else if !Allowed(w.contracts, p.contract) then Some(ContractList)
    else if !Allowed(w.methods, p.method_) then Some(MethodList)
    else if !Allowed(w.recipients, p.recipient) then Some(RecipientList)
    else None
  }

  predicate Denied(names: set<string>, p: Payload) {
    NormalizeAction(p.action) in names || NormalizeAction(p.method_) in names
  }

  function NonceVerdict(s: Session, submitted: Numeral, signed: Numeral): Result<nat, Reason> {
    if !submitted.Int? || submitted.v < 1 then Err(InvalidNonce)
    else if signed.Absent? || signed.Blank? then Err(UnsignedNonce)
    else if signed.Unparsable? then Err(InvalidSignedNonce)
    else if signed.v != submitted.v then Err(NonceMismatch)
    else if submitted.v <= s.lastNonce then Err(NonceReplay)
    else Ok(submitted.v)
  }

  /** Steps 1 to 6: the nonce, if the call gets as far as its signature. */
  function Admit(cfg: Config, a: Account, req: Request, now: int): (r: Result<nat, Reason>)
    ensures r.Ok? ==> req.sessionId in a.sessions && req.payload.Some?
  {
    if a.frozen then Err(AccountFrozen)
    else if a.paused then Err(AccountPaused)
    else if req.sessionId !in a.sessions then Err(UnknownSession)
    else
      var s := a.sessions[req.sessionId];
      if !s.active then Err(NotActive)
      else if s.expiresAt <= now then Err(Expired)
      else if req.payload.None? then Err(NoPayload)
      else
        var p := req.payload.value;
        if p.agentId != s.agentId then Err(WrongAgent)
        else if p.issuedAt != s.issuedAt then Err(WrongIssuedAt)
        else if p.expiresAt != s.expiresAt then Err(WrongExpiresAt)
        else if Denied(cfg.escalation, p) then Err(SelfEscalation)
        else if Denied(cfg.allowance, p) then Err(AllowanceSurface)
        else if WhitelistBreach(s.whitelist, p).Some? then Err(NotWhitelisted(WhitelistBreach(s.whitelist, p).value))
        else NonceVerdict(s, req.nonce, p.nonce)
  }

  // ---- Step 7: the amount the signature stands for ------------------------

  function ClaimedAmount(req: Request): Result<nat, Reason> {
    if req.claimed.Int? && req.claimed.v >= 0 then Ok(req.claimed.v) else Err(BadBinding)
  }

  predicate Decodes(p: Payload) {
    p.isIntent && p.amount.Int? && p.amount.v >= 0
  }

  /** The digest path, which never suspends. */
  function BindDigest(req: Request): Result<nat, Reason>
    requires req.payload.Some?
  {
    var p := req.payload.value;
    if !Decodes(p) || ClaimedAmount(req).Err? || ClaimedAmount(req).value != p.amount.v then Err(BadBinding)
    else if !req.digestOk || !req.signatureOk then Err(BadBinding)
    else Ok(p.amount.v)
  }

  /** enforceAmountBinding, which reads the clock again after the signature check. */
  function BindSignature(req: Request, at: int): Result<nat, Reason>
    requires req.payload.Some?
  {
    var p := req.payload.value;
    if !Decodes(p) || !req.signatureOk || at >= p.expiresAt then Err(BadBinding)
    else if ClaimedAmount(req).Err? || ClaimedAmount(req).value != p.amount.v then Err(BadBinding)
    else Ok(p.amount.v)
  }

  function Bind(s: Session, req: Request, at: int): Result<nat, Reason>
    requires req.payload.Some?
  {
    if s.evmAddress.Some? then BindDigest(req) else BindSignature(req, at)
  }

  // ---- Steps 7b to 10: ceilings and commit --------------------------------

  predicate WindowOver(cfg: Config, a: Account, now: int) {
    a.windowStart.Some? && now - a.windowStart.value >= cfg.dayWindowMs
  }

  function Roll(cfg: Config, a: Account, now: int): Account {
    if WindowOver(cfg, a, now) then a.(windowStart := Some(now), spentInWindow := 0) else a
  }

  /** The account once the spend window has been looked at. */
  function Rolled(cfg: Config, a: Account, now: int): Account {
    if cfg.policy.Limited? then Roll(cfg, a, now) else a
  }

  function Commit(cfg: Config, a: Account, id: string, nonce: nat, amount: nat, now: int): Account
    requires id in a.sessions
  {
    var s := a.sessions[id];
    a.(sessions := a.sessions[id := s.(lastNonce := nonce, spent := s.spent + amount)],
       spentInWindow := if cfg.policy.Limited? then a.spentInWindow + amount else a.spentInWindow,
       windowStart := if a.windowStart.None? then Some(now) else a.windowStart,
       executions := a.executions + 1)
  }

  /** Even a refused or previewed call rolls the window once it reaches the account ceiling. */
  function Settle(cfg: Config, a: Account, id: string, nonce: nat, amount: nat, now: int,
                  preview: bool): (Account, Result<Receipt, Reason>)
    requires id in a.sessions
  {
    var s := a.sessions[id];
    if amount > s.maxPerTx then (a, Err(OverPerTx)) else
      var b := Rolled(cfg, a, now);
      if cfg.policy.Limited? && b.spentInWindow + amount > cfg.policy.maxDaily then (b, Err(OverAccountDaily))
      else if s.spent + amount > s.maxDaily then (b, Err(OverSessionDaily))
      else if preview then (b, Ok(Receipt(id, nonce, amount)))
      else (Commit(cfg, b, id, nonce, amount, now), Ok(Receipt(id, nonce, amount)))
  }

  /** One uninterrupted call. */
  function Execute(cfg: Config, a: Account, req: Request, now: int): (Account, Result<Receipt, Reason>) {
    var nonce := Admit(cfg, a, req, now);
    if nonce.Err? then (a, Err(nonce.error)) else
      var amount := Bind(a.sessions[req.sessionId], req, now);
      if amount.Err? then (a, Err(amount.error))
      else Settle(cfg, a, req.sessionId, nonce.value, amount.value, now, false)
  }

  function Preview(cfg: Config, a: Account, req: Request, now: int): (Account, Result<Receipt, Reason>) {
    var nonce := Admit(cfg, a, req, now);
    if nonce.Err? then (a, Err(nonce.error)) else
      var amount := ClaimedAmount(req);
      if amount.Err? then (a, Err(amount.error))
      else Settle(cfg, a, req.sessionId, nonce.value, amount.value, now, true)
  }

  /** A call suspended at its signature check, holding the nonce and clock it read before. */
  datatype Suspended = Suspended(req: Request, nonce: nat, startedAt: int)

  function Begin(cfg: Config, a: Account, req: Request, now: int): (r: Result<Suspended, Reason>)
    ensures r.Ok? ==> r.value.req.sessionId in a.sessions && r.value.req.payload.Some?
  {
    var nonce := Admit(cfg, a, req, now);
    if nonce.Err? then Err(nonce.error)
    else if a.sessions[req.sessionId].evmAddress.Some? then Err(NeverSuspends)
    else Ok(Suspended(req, nonce.value, now))
  }

  function Finish(cfg: Config, a: Account, call: Suspended, at: int): (Account, Result<Receipt, Reason>)
    requires call.req.sessionId in a.sessions && call.req.payload.Some?
  {
    var amount := BindSignature(call.req, at);
    if amount.Err? then (a, Err(amount.error))
    else Settle(cfg, a, call.req.sessionId, call.nonce, amount.value, call.startedAt, false)
  }

  /** With nothing in between, suspending makes no difference. */
  lemma BeginFinishIsExecute(cfg: Config, a: Account, req: Request, now: int)
    requires Begin(cfg, a, req, now).Ok?
    ensures Finish(cfg, a, Begin(cfg, a, req, now).value, now) == Execute(cfg, a, req, now)
  {
  }

  // ---- When a call moves money --------------------------------------------

  /** Each list that is given has the payload's entry. */
  ghost predicate OnList(w: Whitelist, p: Payload) {
    && (w.chains != None ==> p.chain in w.chains.value) && (w.assets != None ==> p.asset in w.assets.value)
    && (w.contracts != None ==> p.contract in w.contracts.value)
    && (w.methods != None ==> p.method_ in w.methods.value)
    && (w.recipients != None ==> p.recipient in w.recipients.value)
  }

  /** Everything the account and the signed payload must agree on, in no order. */
  ghost predicate Vetted(cfg: Config, a: Account, req: Request, now: int) {
    && !a.frozen && !a.paused && req.sessionId in a.sessions && req.payload.Some?
    && var s, p := a.sessions[req.sessionId], req.payload.value;
    && s.active && now < s.expiresAt
    && p.agentId == s.agentId && p.issuedAt == s.issuedAt && p.expiresAt == s.expiresAt
    && {NormalizeAction(p.action), NormalizeAction(p.method_)} !! cfg.escalation + cfg.allowance
    && OnList(s.whitelist, p)
    && req.nonce.Int? && p.nonce == req.nonce && req.nonce.v >= 1 && req.nonce.v > s.lastNonce
  }

  /** The claimed amount is the signed one, under a signature that checks out. */
  ghost predicate SignedAs(req: Request)
    requires req.payload.Some?
  {
    var p := req.payload.value;
    p.isIntent && p.amount.Int? && p.amount.v >= 0 && req.claimed == p.amount && req.signatureOk
  }

  /** The same, with the digest matching or, on the path that may suspend, in time. */
  ghost predicate Bound(s: Session, req: Request, at: int)
    requires req.payload.Some?
  {
    SignedAs(req) && if s.evmAddress.Some? then req.digestOk else at < req.payload.value.expiresAt
  }

  /** Within every ceiling; what was spent in a window that has passed no longer counts. */
  ghost predicate Affordable(cfg: Config, a: Account, s: Session, amount: int, now: int) {
    && amount <= s.maxPerTx && s.spent + amount <= s.maxDaily
    && (cfg.policy.Limited? ==>
          if a.windowStart.Some? && now >= a.windowStart.value + cfg.dayWindowMs then amount <= cfg.policy.maxDaily
          else a.spentInWindow + amount <= cfg.policy.maxDaily)
  }

  lemma AdmittedExactly(cfg: Config, a: Account, req: Request, now: int)
    ensures Admit(cfg, a, req, now).Ok? <==> Vetted(cfg, a, req, now)
    ensures Admit(cfg, a, req, now).Ok? ==> Admit(cfg, a, req, now).value == req.nonce.v
  {
  }

  lemma BoundExactly(s: Session, req: Request, at: int)
    requires req.payload.Some?
    ensures Bind(s, req, at).Ok? <==> Bound(s, req, at)
    ensures Bind(s, req, at).Ok? ==> Bind(s, req, at).value == req.payload.value.amount.v
  {
  }

  /** A call moves money exactly when everything agrees, the amount is bound and the ceilings
      leave room; it moves the signed amount under the signed nonce. */
  lemma ExecutedExactly(cfg: Config, a: Account, req: Request, now: int)
    ensures Execute(cfg, a, req, now).1.Ok? <==>
      && Vetted(cfg, a, req, now) && Bound(a.sessions[req.sessionId], req, now)
      && Affordable(cfg, a, a.sessions[req.sessionId], req.payload.value.amount.v, now)
    ensures Execute(cfg, a, req, now).1.Ok? ==>
      Execute(cfg, a, req, now).1.value == Receipt(req.sessionId, req.nonce.v, req.payload.value.amount.v)
  {
    AdmittedExactly(cfg, a, req, now);
    if Vetted(cfg, a, req, now) {
      BoundExactly(a.sessions[req.sessionId], req, now);
    }
  }

  /** A resumed call moves money exactly when the amount is bound, the signature has not
      outlived the session, and the ceilings leave room: nothing else is looked at again. */
  lemma ResumedExactly(cfg: Config, a: Account, call: Suspended, at: int)
    requires call.req.sessionId in a.sessions && call.req.payload.Some?
    ensures Finish(cfg, a, call, at).1.Ok? <==>
      && SignedAs(call.req) && at < call.req.payload.value.expiresAt
      && Affordable(cfg, a, a.sessions[call.req.sessionId], call.req.payload.value.amount.v, call.startedAt)
    ensures Finish(cfg, a, call, at).1.Ok? ==>
      Finish(cfg, a, call, at).1.value == Receipt(call.req.sessionId, call.nonce, call.req.payload.value.amount.v)
  {
  }

  /** What is wrong with a call by the reason of its refusal. */
  ghost predicate Wrong(cfg: Config, a: Account, req: Request, now: int, reason: Reason) {
    && (reason == AccountFrozen ==> a.frozen)
    && (reason == AccountPaused ==> a.paused)
    && (reason == UnknownSession ==> req.sessionId !in a.sessions)
    && (reason !in {AccountFrozen, AccountPaused, UnknownSession} ==>
          && req.sessionId in a.sessions
          && (WrongSession(cfg, a, a.sessions[req.sessionId], req, now, reason)
              || (req.payload.Some? && WrongPayload(cfg, a.sessions[req.sessionId], req, now, reason))))
  }

  ghost predicate WrongSession(cfg: Config, a: Account, s: Session, req: Request, now: int, reason: Reason) {
    || (reason.NotActive? && !s.active)
    || (reason.Expired? && now >= s.expiresAt)
    || (reason.NoPayload? && req.payload == None)
    || (reason.InvalidNonce? && !(req.nonce.Int? && req.nonce.v >= 1))
    || (reason.NonceReplay? && req.nonce.Int? && req.nonce.v <= s.lastNonce)
    || (req.claimed.Int? && Exceeds(cfg, a, s, req.claimed.v, now, reason))
  }

  ghost predicate Exceeds(cfg: Config, a: Account, s: Session, amount: int, now: int, reason: Reason) {
    || (reason.OverPerTx? && amount > s.maxPerTx)
    || (reason.OverSessionDaily? && s.spent + amount > s.maxDaily)
    || (reason.OverAccountDaily? && cfg.policy.Limited?
        && if a.windowStart.Some? && now >= a.windowStart.value + cfg.dayWindowMs then amount > cfg.policy.maxDaily
           else a.spentInWindow + amount > cfg.policy.maxDaily)
  }

  ghost predicate WrongPayload(cfg: Config, s: Session, req: Request, now: int, reason: Reason)
    requires req.payload.Some?
  {
    var p := req.payload.value;
    var names := {NormalizeAction(p.action), NormalizeAction(p.method_)};
    || (reason.WrongAgent? && p.agentId != s.agentId)
    || (reason.WrongIssuedAt? && p.issuedAt != s.issuedAt)
    || (reason.WrongExpiresAt? && p.expiresAt != s.expiresAt)
    || (reason.SelfEscalation? && !(names !! cfg.escalation))
    || (reason.AllowanceSurface? && !(names !! cfg.allowance))
    || (reason.NotWhitelisted? && OffList(s.whitelist, p, reason.d))
    || (reason.UnsignedNonce? && (p.nonce.Absent? || p.nonce.Blank?))
    || (reason.InvalidSignedNonce? && p.nonce.Unparsable?)
    || (reason.NonceMismatch? && p.nonce.Int? && p.nonce != req.nonce)
    || (reason.BadBinding? && !Bound(s, req, now))
  }

  ghost predicate OffList(w: Whitelist, p: Payload, d: Dimension) {
    match d
    case ChainList => w.chains.Some? && p.chain !in w.chains.value
    case AssetList => w.assets.Some? && p.asset !in w.assets.value
    case ContractList => w.contracts.Some? && p.contract !in w.contracts.value
    case MethodList => w.methods.Some? && p.method_ !in w.methods.value
    case RecipientList => w.recipients.Some? && p.recipient !in w.recipients.value
  }

  lemma NonceRefusalIsTrue(s: Session, submitted: Numeral, signed: Numeral)
    ensures match NonceVerdict(s, submitted, signed)
      case Ok(n) => submitted == signed == Int(n) && n >= 1 && n > s.lastNonce
      case Err(reason) =>
        || (reason.InvalidNonce? && !(submitted.Int? && submitted.v >= 1))
        || (reason.NonceReplay? && submitted.Int? && submitted.v <= s.lastNonce)
        || (reason.UnsignedNonce? && (signed.Absent? || signed.Blank?))
        || (reason.InvalidSignedNonce? && signed.Unparsable?)
        || (reason.NonceMismatch? && signed.Int? && signed != submitted)
  {
  }

  lemma ListRefusalIsTrue(w: Whitelist, p: Payload)
    ensures WhitelistBreach(w, p).Some? ==> OffList(w, p, WhitelistBreach(w, p).value)
  {
  }

  lemma DenialMeans(names: set<string>, p: Payload)
    ensures Denied(names, p) <==> !({NormalizeAction(p.action), NormalizeAction(p.method_)} !! names)
  {
  }

  lemma AdmissionRefusalIsTrue(cfg: Config, a: Account, req: Request, now: int)
    requires Admit(cfg, a, req, now).Err?
    ensures Wrong(cfg, a, req, now, Admit(cfg, a, req, now).error)
  {
    if req.sessionId in a.sessions && req.payload.Some? {
      var s, p := a.sessions[req.sessionId], req.payload.value;
      DenialMeans(cfg.escalation, p);
      DenialMeans(cfg.allowance, p);
      ListRefusalIsTrue(s.whitelist, p);
      NonceRefusalIsTrue(s, req.nonce, p.nonce);
    }
  }

  lemma SettleRefusalIsTrue(cfg: Config, a: Account, req: Request, nonce: nat, now: int)
    requires req.sessionId in a.sessions && req.claimed.Int? && req.claimed.v >= 0
    requires Settle(cfg, a, req.sessionId, nonce, req.claimed.v, now, false).1.Err?
    ensures Wrong(cfg, a, req, now, Settle(cfg, a, req.sessionId, nonce, req.claimed.v, now, false).1.error)
  {
  }

  /** The reason of a refusal is true of the call. */
  lemma RefusalIsTrue(cfg: Config, a: Account, req: Request, now: int)
    requires Execute(cfg, a, req, now).1.Err?
    ensures Wrong(cfg, a, req, now, Execute(cfg, a, req, now).1.error)
  {
    var nonce := Admit(cfg, a, req, now);
    if nonce.Err? {
      AdmissionRefusalIsTrue(cfg, a, req, now);
    } else {
      var s := a.sessions[req.sessionId];
      BoundExactly(s, req, now);
      if Bind(s, req, now).Ok? {
        SettleRefusalIsTrue(cfg, a, req, nonce.value, now);
      }
    }
  }

  /** A call is suspended exactly if it is admitted and its session has no address, with the
      nonce and the clock it read. */
  lemma SuspendedExactly(cfg: Config, a: Account, req: Request, now: int)
    ensures Begin(cfg, a, req, now).Ok? <==>
      Vetted(cfg, a, req, now) && a.sessions[req.sessionId].evmAddress == None
    ensures Begin(cfg, a, req, now).Ok? ==> Begin(cfg, a, req, now).value == Suspended(req, req.nonce.v, now)
  {
    AdmittedExactly(cfg, a, req, now);
  }

  // ---- What a preview changes --------------------------------------------

  /** A preview changes the account exactly when it gets as far as the account ceiling after
      the window has passed: then the window rolls. */
  lemma PreviewChangesExactly(cfg: Config, a: Account, req: Request, now: int)
    requires cfg.dayWindowMs > 0
    ensures Preview(cfg, a, req, now).0 != a <==>
      && cfg.policy.Limited? && Admit(cfg, a, req, now).Ok? && ClaimedAmount(req).Ok?
      && ClaimedAmount(req).value <= a.sessions[req.sessionId].maxPerTx && WindowOver(cfg, a, now)
    ensures Preview(cfg, a, req, now).0 != a ==>
      Preview(cfg, a, req, now).0 == a.(windowStart := Some(now), spentInWindow := 0)
  {
  }

  // ---- Exposure ----------------------------------------------------------

  /** The reported ceiling of an active, unexpired session. */
  function MaxLossCeiling(cfg: Config, a: Account, id: string, now: int): Option<int> {
    if id !in a.sessions || !a.sessions[id].active || a.sessions[id].expiresAt <= now then None else
      var session := a.sessions[id].maxDaily - a.sessions[id].spent;
      if cfg.policy.Unlimited? then Some(session) else
        var account := cfg.policy.maxDaily - a.spentInWindow;
        Some(if account < session then account else session)
  }

  /** It is reported exactly for those sessions, and is the largest total that the daily
      ceilings leave room for while the spend window lasts. */
  lemma MaxLossExactly(cfg: Config, a: Account, id: string, now: int, amount: nat)
    ensures MaxLossCeiling(cfg, a, id, now).Some? <==>
      id in a.sessions && a.sessions[id].active && now < a.sessions[id].expiresAt
    ensures var ceiling := MaxLossCeiling(cfg, a, id, now);
      var lasts := a.windowStart.Some? ==> now < a.windowStart.value + cfg.dayWindowMs;
      ceiling.Some? && lasts ==>
        (amount <= ceiling.value <==> Affordable(cfg, a, a.sessions[id].(maxPerTx := amount), amount, now))
  {
  }

  /** The per-transaction ceiling of the account policy is never consulted: not by whole
      calls, previews, or the two parts of a suspended call. */
  lemma AccountPerTxIsUnused(cfg: Config, p: nat, a: Account, req: Request, now: int, call: Suspended, at: int)
    requires cfg.policy.Limited? && call.req.sessionId in a.sessions && call.req.payload.Some?
    ensures var other := cfg.(policy := cfg.policy.(maxPerTx := p));
      && Execute(other, a, req, now) == Execute(cfg, a, req, now)
      && Preview(other, a, req, now) == Preview(cfg, a, req, now)
      && Begin(other, a, req, now) == Begin(cfg, a, req, now)
      && Finish(other, a, call, at) == Finish(cfg, a, call, at)
  {
    var other := cfg.(policy := cfg.policy.(maxPerTx := p));
    assert Admit(other, a, req, now) == Admit(cfg, a, req, now);
  }

  // ---- The object --------------------------------------------------------

  class Engine {
    const cfg: Config
    var frozen: bool
    var paused: bool
    var sessions: map<string, Session>
    var spendWindowStart: Option<int>
    var spentInWindow: nat
    var executions: nat

    function Abs(): Account
      reads this
    {
      Account(frozen, paused, sessions, spendWindowStart, spentInWindow, executions)
    }

    constructor (cfg: Config)
      ensures this.cfg == cfg && Abs() == FRESH
    {
      this.cfg := cfg;
      frozen, paused, sessions := false, false, map[];
      spendWindowStart, spentInWindow, executions := None, 0, 0;
    }

    method RegisterSession(caller: string, id: string, r: Registration, now: int) returns (res: Result<(), Reason>)
      modifies this
      ensures (Abs(), res) == Register(cfg, old(Abs()), caller, id, r, now)
    {
      if caller != cfg.owner {
        return Err(Unauthorized);
      }
      if id == "" || id in sessions || !Registrable(r, now) {
        return Err(BadRegistration);
      }
      sessions := sessions[id := Session(
        r.agentId, r.publicKey, r.evmAddress, r.issuedAt.value, r.expiresAt.value, r.whitelist,
        Ceiling(r.maxPerTx).value, Ceiling(r.maxDaily).value, true, 0, 0)];
      res := Ok(());
    }

    method RevokeSession(caller: string, id: string) returns (res: Result<(), Reason>)
      modifies this
      ensures (Abs(), res) == Revoke(cfg, old(Abs()), caller, id)
    {
      if caller != cfg.owner && caller != cfg.emergencyKey {
        return Err(Unauthorized);
      }
      if id !in sessions {
        return Err(UnknownSession);
      }
      sessions := sessions[id := sessions[id].(active := false)];
      res := Ok(());
    }

    method SetSwitch(caller: string, w: Switch) returns (res: Result<(), Reason>)
      modifies this
      ensures (Abs(), res) == Flip(cfg, old(Abs()), caller, w)
    {
      if !MaySwitch(cfg, caller, w) {
        return Err(Unauthorized);
      }
      match w {
        case Pause => paused := true;
        case Resume => paused := false;
        case Freeze => frozen := true;
        case Unfreeze => frozen := false;
      }
      res := Ok(());
    }

    method EmergencyReduceLimit(caller: string, id: string, perTx: Numeral, daily: Numeral)
      returns (res: Result<(), Reason>)
      modifies this
      ensures (Abs(), res) == Reduce(cfg, old(Abs()), caller, id, perTx, daily)
    {
      if caller != cfg.emergencyKey {
        return Err(Unauthorized);
      }
      if id !in sessions {
        return Err(UnknownSession);
      }
      var p := ReducedCeiling(perTx, sessions[id].maxPerTx);
      if p.Err? {
        return Err(p.error);
      }
      var s := sessions[id].(maxPerTx := p.value);
      sessions := sessions[id := s];
      var d := ReducedCeiling(daily, s.maxDaily);
      if d.Err? {
        return Err(d.error);
      }
      assert old(sessions)[id := s][id := s.(maxDaily := d.value)] == old(sessions)[id := s.(maxDaily := d.value)];
      sessions := sessions[id := s.(maxDaily := d.value)];
      res := Ok(());
    }

    method RollWindow(now: int)
      modifies this`spendWindowStart, this`spentInWindow
      ensures Abs() == Roll(cfg, old(Abs()), now)
    {
      if spendWindowStart.None? {
        return;
      }
      if now - spendWindowStart.value >= cfg.dayWindowMs {
        spendWindowStart := Some(now);
        spentInWindow := 0;
      }
    }

    method SettleCall(id: string, nonce: nat, amount: nat, now: int, preview: bool)
      returns (res: Result<Receipt, Reason>)
      requires id in sessions
      modifies this
      ensures (Abs(), res) == Settle(cfg, old(Abs()), id, nonce, amount, now, preview)
    {
      var s := sessions[id];
      if amount > s.maxPerTx {
        return Err(OverPerTx);
      }
      if cfg.policy.Limited? {
        RollWindow(now);
        if spentInWindow + amount > cfg.policy.maxDaily {
          return Err(OverAccountDaily);
        }
      }
      if s.spent + amount > s.maxDaily {
        return Err(OverSessionDaily);
      }
      if preview {
        return Ok(Receipt(id, nonce, amount));
      }
      sessions := sessions[id := s.(lastNonce := nonce, spent := s.spent + amount)];
      if cfg.policy.Limited? {
        spentInWindow := spentInWindow + amount;
      }
      if spendWindowStart.None? {
        spendWindowStart := Some(now);
      }
      executions := executions + 1;
      res := Ok(Receipt(id, nonce, amount));
    }

    method ExecuteFromAgent(req: Request, now: int, preview: bool) returns (res: Result<Receipt, Reason>)
      modifies this
      ensures (Abs(), res) == if preview then Preview(cfg, old(Abs()), req, now) else Execute(cfg, old(Abs()), req, now)
    {
      var nonce := Admit(cfg, Abs(), req, now);
      if nonce.Err? {
        return Err(nonce.error);
      }
      var amount := if preview then ClaimedAmount(req) else Bind(sessions[req.sessionId], req, now);
      if amount.Err? {
        return Err(amount.error);
      }
      res := SettleCall(req.sessionId, nonce.value, amount.value, now, preview);
    }

    /** The part of a call before its await; nothing is written yet. */
    method BeginExecute(req: Request, now: int) returns (res: Result<Suspended, Reason>)
      ensures res == Begin(cfg, Abs(), req, now)
    {
      var nonce := Admit(cfg, Abs(), req, now);
      if nonce.Err? {
        return Err(nonce.error);
      }
      if sessions[req.sessionId].evmAddress.Some? {
        return Err(NeverSuspends);
      }
      res := Ok(Suspended(req, nonce.value, now));
    }

    /** The part after it, with whatever the account has become meanwhile. */
    method FinishExecute(call: Suspended, at: int) returns (res: Result<Receipt, Reason>)
      requires call.req.sessionId in sessions && call.req.payload.Some?
      modifies this
      ensures (Abs(), res) == Finish(cfg, old(Abs()), call, at)
    {
      var amount := BindSignature(call.req, at);
      if amount.Err? {
        return Err(amount.error);
      }
      res := SettleCall(call.req.sessionId, call.nonce, amount.value, call.startedAt, false);
    }
  }
}
