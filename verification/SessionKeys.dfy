/**
 Session keys and their narrowing (packages/agent-keys/src/session.js). Case folding is a
 parameter: narrowing compares whitelist entries exactly, access checks compare them folded.
 */
module SessionKeys {
  import opened Common
  import opened SpendPolicy

  const MIN_TTL_MS := 60 * 1000
  const MAX_TTL_MS := 365 * 24 * 60 * 60 * 1000

  datatype Session = Session(
    agentId: string, issuedAt: int, expiresAt: int,
    contracts: seq<string>, methods: seq<string>, chains: seq<string>,
    maxPerTx: Raw, maxDaily: Raw)

  /** A requested scope; None is an omitted dimension, which inherits the parent's. */
  datatype Scope = Scope(
    agentId: string,
    contracts: Option<seq<string>>, methods: Option<seq<string>>, chains: Option<seq<string>>,
    maxPerTx: Option<Raw>, maxDaily: Option<Raw>, ttl: Option<int>)

  datatype Dimension = Contracts | Methods | Chains | PerTx | Daily

  datatype Failure = ParentExpired | AgentMismatch | Widening(d: Dimension)
    | AgentRequired | TtlRange | BadIssuedAt | BadExpiresAt | TtlMismatch

  datatype Access = Admitted | Refused | AccessThrew

  /** A proposed operation; None for a contract, method or chain that is not given. */
  datatype Context = Context(
    contract: Option<string>, method_: Option<string>, chain: Option<string>,
    amount: Raw, spentToday: Raw)

  // ---- Creation ----------------------------------------------------------

  function OrZeroText(r: Raw): Raw {
    if Truthy(r) then r else Str(0)
  }

  function CreateSessionKey(
    agentId: string, contracts: seq<string>, methods: seq<string>, chains: seq<string>,
    maxPerTx: Raw, maxDaily: Raw, ttl: int, issuedAt: int, expiresAt: int): Result<Session, Failure>
  {
    if agentId == "" then Err(AgentRequired)
    else if ttl < MIN_TTL_MS || ttl > MAX_TTL_MS then Err(TtlRange)
    else if issuedAt <= 0 then Err(BadIssuedAt)
    else if expiresAt <= issuedAt then Err(BadExpiresAt)
    else if expiresAt - issuedAt != ttl then Err(TtlMismatch)
    else Ok(Session(agentId, issuedAt, expiresAt, contracts, methods, chains,
                    OrZeroText(maxPerTx), OrZeroText(maxDaily)))
  }

  /** A session is created exactly for a named agent, a time to live in range and dates that
      are that far apart, and holds what it was given; limits left open are zero. */
  lemma CreatedExactly(agentId: string, contracts: seq<string>, methods: seq<string>, chains: seq<string>,
                       maxPerTx: Raw, maxDaily: Raw, ttl: int, issuedAt: int, expiresAt: int)
    ensures var r :=
        CreateSessionKey(agentId, contracts, methods, chains, maxPerTx, maxDaily, ttl, issuedAt, expiresAt);
      && (r.Ok? <==> agentId != "" && 60000 <= ttl <= 31536000000 && issuedAt > 0 && expiresAt == issuedAt + ttl)
      && (r.Ok? ==>
            && r.value.agentId == agentId && r.value.issuedAt == issuedAt && r.value.expiresAt == expiresAt
            && r.value.contracts == contracts && r.value.methods == methods && r.value.chains == chains
            && r.value.maxPerTx == (if maxPerTx in {Missing, Empty, Num(0)} then Str(0) else maxPerTx)
            && r.value.maxDaily == (if maxDaily in {Missing, Empty, Num(0)} then Str(0) else maxDaily))
      && (r == Err(BadExpiresAt) ==> expiresAt <= issuedAt)
      && (r == Err(TtlMismatch) ==> expiresAt != issuedAt + ttl)
      && (r == Err(BadExpiresAt) || r == Err(TtlMismatch) || r == Err(BadIssuedAt) <==>
            agentId != "" && 60000 <= ttl <= 31536000000 && (issuedAt <= 0 || expiresAt != issuedAt + ttl))
  {
  }

  // ---- Narrowing ---------------------------------------------------------

  predicate IsSubsetOrUnrestricted(child: seq<string>, parent: seq<string>) {
    parent == [] || (child != [] && forall c | c in child :: c in parent)
  }

  predicate IsNarrowerOrEqual(child: Raw, parent: Raw) {
    var c, p := OrZero(child), OrZero(parent);
    && c.Some? && p.Some?
    && (p.value == 0 || (c.value != 0 && c.value <= p.value))
  }

  function Resolve<T>(requested: Option<T>, inherited: T): T {
    if requested.Some? then requested.value else inherited
  }

  function FirstWidening(parent: Session, s: Scope): Option<Dimension> {
    if !IsSubsetOrUnrestricted(Resolve(s.contracts, parent.contracts), parent.contracts) then Some(Contracts)
    else if !IsSubsetOrUnrestricted(Resolve(s.methods, parent.methods), parent.methods) then Some(Methods)
    else if !IsSubsetOrUnrestricted(Resolve(s.chains, parent.chains), parent.chains) then Some(Chains)
    else if !IsNarrowerOrEqual(Resolve(s.maxPerTx, parent.maxPerTx), OrZeroText(parent.maxPerTx)) then Some(PerTx)
    else if !IsNarrowerOrEqual(Resolve(s.maxDaily, parent.maxDaily), OrZeroText(parent.maxDaily)) then Some(Daily)
    else None
  }

  function Min(a: int, b: int): int {
    if b < a then b else a
  }

  function ClampedTtl(parent: Session, s: Scope, now: int): int {
    Min(Resolve(s.ttl, parent.expiresAt - now), parent.expiresAt - now)
  }

  function NarrowSession(parent: Session, s: Scope, now: int): Result<Session, Failure> {
    if now >= parent.expiresAt then Err(ParentExpired)
    else if s.agentId != parent.agentId then Err(AgentMismatch)
    else
      var widening := FirstWidening(parent, s);
      if widening.Some? then Err(Widening(widening.value)) else
        var ttl := ClampedTtl(parent, s, now);
        CreateSessionKey(
          parent.agentId,
          Resolve(s.contracts, parent.contracts), Resolve(s.methods, parent.methods),
          Resolve(s.chains, parent.chains),
          Resolve(s.maxPerTx, parent.maxPerTx), Resolve(s.maxDaily, parent.maxDaily),
          ttl, now, Min(parent.expiresAt, now + ttl))
  }

  // ---- Access ------------------------------------------------------------

  predicate Listed(fold: string -> string, wanted: Option<string>, list: seq<string>) {
    wanted.None? || wanted.value == "" || list == []
    || exists i :: 0 <= i < |list| && fold(list[i]) == fold(wanted.value)
  }

  function CheckAmount(session: Session, amount: Raw, spentToday: Raw): Access {
    if amount.Missing? then Admitted
    else if amount.Empty? || amount.Blank? || spentToday.Empty? || spentToday.Blank? then Refused
    else
      var a, s := BigIntOf(amount), OrZero(spentToday);
      if a.None? || s.None? || a.value < 0 || s.value < 0 then Refused else
        var perTx, daily := OrDefault(session.maxPerTx, 0), OrDefault(session.maxDaily, 0);
        if perTx.None? then AccessThrew
        else if perTx.value > 0 && a.value > perTx.value then Refused
        else if daily.None? then AccessThrew
        else if daily.value > 0 && s.value + a.value > daily.value then Refused
        else Admitted
  }

  function CheckSessionAccess(fold: string -> string, session: Session, c: Context, now: int): Access {
    if session.expiresAt != 0 && now > session.expiresAt then Refused
    else if !Listed(fold, c.contract, session.contracts) then Refused
    else if !Listed(fold, c.method_, session.methods) then Refused
    else if !Listed(fold, c.chain, session.chains) then Refused
    else CheckAmount(session, c.amount, c.spentToday)
  }

  /** A limit that parses and, if positive, is kept to. */
  predicate Within(limit: Raw, total: int) {
    var l := OrDefault(limit, 0);
    l.Some? && (l.value > 0 ==> total <= l.value)
  }

  /** A name that is given, and not empty, is on the list up to case, if there is a list. */
  ghost predicate Covers(fold: string -> string, list: seq<string>, wanted: Option<string>) {
    wanted.Some? && wanted.value != "" && list != [] ==> exists y | y in list :: fold(y) == fold(wanted.value)
  }

  lemma ListedCovers(fold: string -> string, wanted: Option<string>, list: seq<string>)
    ensures Listed(fold, wanted, list) <==> Covers(fold, list, wanted)
  {
    if wanted.Some? && wanted.value != "" && list != [] && Covers(fold, list, wanted) {
      var y :| y in list && fold(y) == fold(wanted.value);
      var i :| 0 <= i < |list| && list[i] == y;
      assert fold(list[i]) == fold(wanted.value);
    }
  }

  /** Parsed and not negative; the total may be left out. */
  ghost predicate Amounts(c: Context) {
    && (c.amount.Num? || c.amount.Str?) && c.amount.n >= 0
    && (c.spentToday.Missing? || ((c.spentToday.Num? || c.spentToday.Str?) && c.spentToday.n >= 0))
  }

  ghost predicate InForceAndListed(fold: string -> string, session: Session, c: Context, now: int) {
    && (session.expiresAt == 0 || now <= session.expiresAt)
    && Covers(fold, session.contracts, c.contract) && Covers(fold, session.methods, c.method_)
    && Covers(fold, session.chains, c.chain)
  }

  /** Access exactly: not expired, every given dimension listed, and an amount, if given,
      parsed, non-negative and within both limits. The check fails exactly on a limit that it
      reaches and that does not parse. */
  lemma AdmittedExactly(fold: string -> string, session: Session, c: Context, now: int)
    ensures CheckSessionAccess(fold, session, c, now) == Admitted <==>
      && InForceAndListed(fold, session, c, now)
      && (c.amount.Missing? || (
        && Amounts(c) && Within(session.maxPerTx, c.amount.n)
        && Within(session.maxDaily, c.amount.n + NumberOf(c.spentToday))))
    ensures CheckSessionAccess(fold, session, c, now) == AccessThrew <==>
      && InForceAndListed(fold, session, c, now) && Amounts(c)
      && (session.maxPerTx.Junk? || (Within(session.maxPerTx, c.amount.n) && session.maxDaily.Junk?))
  {
    ListedCovers(fold, c.contract, session.contracts);
    ListedCovers(fold, c.method_, session.methods);
    ListedCovers(fold, c.chain, session.chains);
  }

  // ---- A derivation does what was asked ----------------------------------

  /** What the scope gives, or else the parent. */
  ghost predicate ScopeCovers(fold: string -> string, own: Option<seq<string>>, inherited: seq<string>,
                              wanted: Option<string>) {
    match own case Some(list) => Covers(fold, list, wanted) case None => Covers(fold, inherited, wanted)
  }

  ghost predicate ScopeAllows(own: Option<Raw>, inherited: Raw, total: int) {
    match own
    case Some(r) => NumberOf(r) > 0 ==> total <= NumberOf(r)
    case None => NumberOf(inherited) > 0 ==> total <= NumberOf(inherited)
  }

  /** The derived session admits exactly what the scope asks for, and the parent where the
      scope says nothing, until the earlier of the two expiries. */
  lemma DerivedAdmitsExactly(fold: string -> string, parent: Session, s: Scope, now: int, c: Context, t: int)
    requires NarrowSession(parent, s, now).Ok?
    ensures var child := NarrowSession(parent, s, now).value;
      && child.agentId == parent.agentId == s.agentId && child.issuedAt == now
      && (CheckSessionAccess(fold, child, c, t) == Admitted <==>
            && t <= parent.expiresAt && (s.ttl.Some? ==> t <= now + s.ttl.value)
            && ScopeCovers(fold, s.contracts, parent.contracts, c.contract)
            && ScopeCovers(fold, s.methods, parent.methods, c.method_)
            && ScopeCovers(fold, s.chains, parent.chains, c.chain)
            && (c.amount.Missing? || (
                  && Amounts(c) && ScopeAllows(s.maxPerTx, parent.maxPerTx, c.amount.n)
                  && ScopeAllows(s.maxDaily, parent.maxDaily, c.amount.n + NumberOf(c.spentToday)))))
  {
    AdmittedExactly(fold, NarrowSession(parent, s, now).value, c, t);
  }

  /** Each entry asked for is the parent's, and an unrestricted list only under such a parent. */
  ghost predicate ListNarrows(own: Option<seq<string>>, inherited: seq<string>) {
    inherited != [] && own.Some? ==> own.value != [] && forall x | x in own.value :: x in inherited
  }

  /** Both parse, and the limit asked for is positive or negative, but no larger. */
  ghost predicate LimitNarrows(own: Option<Raw>, inherited: Raw) {
    && !inherited.Junk?
    && match own
       case None => true
       case Some(r) =>
         !r.Junk? && (NumberOf(inherited) != 0 ==> NumberOf(r) != 0 && NumberOf(r) <= NumberOf(inherited))
  }

  lemma SubsetMeans(own: Option<seq<string>>, inherited: seq<string>)
    ensures IsSubsetOrUnrestricted(Resolve(own, inherited), inherited) <==> ListNarrows(own, inherited)
  {
  }

  lemma NarrowerMeans(own: Option<Raw>, inherited: Raw)
    ensures IsNarrowerOrEqual(Resolve(own, inherited), OrZeroText(inherited)) <==> LimitNarrows(own, inherited)
  {
  }

  ghost predicate Narrows(parent: Session, s: Scope, d: Dimension) {
    match d
    case Contracts => ListNarrows(s.contracts, parent.contracts)
    case Methods => ListNarrows(s.methods, parent.methods)
    case Chains => ListNarrows(s.chains, parent.chains)
    case PerTx => LimitNarrows(s.maxPerTx, parent.maxPerTx)
    case Daily => LimitNarrows(s.maxDaily, parent.maxDaily)
  }

  /** What is left of the parent, or less where asked. */
  ghost predicate IsTtl(parent: Session, s: Scope, now: int, ttl: int) {
    && ttl <= parent.expiresAt - now && (s.ttl.Some? ==> ttl <= s.ttl.value)
    && (ttl == parent.expiresAt - now || s.ttl == Some(ttl))
  }

  /** A derivation succeeds exactly for a live parent's own agent, a scope that narrows in every
      dimension, and a time to live in range. */
  lemma DerivesExactly(parent: Session, s: Scope, now: int, ttl: int)
    requires IsTtl(parent, s, now, ttl)
    ensures NarrowSession(parent, s, now).Ok? <==>
      && 0 < now < parent.expiresAt && s.agentId == parent.agentId != ""
      && (forall d: Dimension :: Narrows(parent, s, d)) && MIN_TTL_MS <= ttl <= MAX_TTL_MS
  {
    SubsetMeans(s.contracts, parent.contracts);
    SubsetMeans(s.methods, parent.methods);
    SubsetMeans(s.chains, parent.chains);
    NarrowerMeans(s.maxPerTx, parent.maxPerTx);
    NarrowerMeans(s.maxDaily, parent.maxDaily);
    assert ttl == ClampedTtl(parent, s, now);
    if FirstWidening(parent, s).None? {
      forall d: Dimension ensures Narrows(parent, s, d) {
        match d case Contracts => case Methods => case Chains => case PerTx => case Daily =>
      }
    } else {
      assert !Narrows(parent, s, FirstWidening(parent, s).value);
    }
  }

  /** A refusal names something that is wrong. */
  lemma DerivationRefusalIsTrue(parent: Session, s: Scope, now: int, ttl: int)
    requires IsTtl(parent, s, now, ttl) && NarrowSession(parent, s, now).Err?
    ensures NarrowSession(parent, s, now).error == ParentExpired <==> now >= parent.expiresAt
    ensures match NarrowSession(parent, s, now).error
      case ParentExpired => now >= parent.expiresAt
      case AgentMismatch => s.agentId != parent.agentId
      case Widening(d) => !Narrows(parent, s, d)
      case AgentRequired => parent.agentId == ""
      case TtlRange => ttl < MIN_TTL_MS || ttl > MAX_TTL_MS
      case BadIssuedAt => now <= 0
      case _ => false
  {
    SubsetMeans(s.contracts, parent.contracts);
    SubsetMeans(s.methods, parent.methods);
    SubsetMeans(s.chains, parent.chains);
    NarrowerMeans(s.maxPerTx, parent.maxPerTx);
    NarrowerMeans(s.maxDaily, parent.maxDaily);
  }

  // ---- Narrowing refines access -----------------------------------------

  /** Whatever `child` admits at any time, `parent` admits. */
  ghost predicate Refines(fold: string -> string, child: Session, parent: Session) {
    forall c, now :: CheckSessionAccess(fold, child, c, now) == Admitted ==>
      CheckSessionAccess(fold, parent, c, now) == Admitted
  }

  /** The limit a field stands for where it parses. */
  function LimitOf(r: Raw): int {
    match OrDefault(r, 0) case Some(v) => v case None => 0
  }

  predicate NonNegativeLimits(s: Session) {
    LimitOf(s.maxPerTx) >= 0 && LimitOf(s.maxDaily) >= 0
  }

  /** A negative limit passes for narrow but enforces nothing, so it must not stand where
      the parent enforces something, unless the other limit covers for it. */
  predicate KeepsLimits(child: Session, parent: Session) {
    var p, d := LimitOf(parent.maxPerTx), LimitOf(parent.maxDaily);
    var p', d' := LimitOf(child.maxPerTx), LimitOf(child.maxDaily);
    && !(p > 0 && p' < 0 && (d' <= 0 || d' > p))
    && !(d > 0 && d' < 0)
  }

  predicate Narrower(child: Raw, parent: Raw) {
    && OrDefault(child, 0).Some? && OrDefault(parent, 0).Some?
    && (LimitOf(parent) == 0 || (LimitOf(child) != 0 && LimitOf(child) <= LimitOf(parent)))
  }

  lemma DerivedLimits(parent: Session, s: Scope, now: int)
    requires NarrowSession(parent, s, now).Ok?
    ensures Narrower(NarrowSession(parent, s, now).value.maxPerTx, parent.maxPerTx)
    ensures Narrower(NarrowSession(parent, s, now).value.maxDaily, parent.maxDaily)
  {
  }

  lemma SubsetListed(fold: string -> string, wanted: Option<string>, child: seq<string>, parent: seq<string>)
    requires IsSubsetOrUnrestricted(child, parent) && Listed(fold, wanted, child)
    ensures Listed(fold, wanted, parent)
  {
    if wanted.Some? && wanted.value != "" && parent != [] {
      var i :| 0 <= i < |child| && fold(child[i]) == fold(wanted.value);
      assert child[i] in parent;
      var j :| 0 <= j < |parent| && parent[j] == child[i];
    }
  }

  lemma DerivedRefines(fold: string -> string, parent: Session, s: Scope, now: int, c: Context, t: int)
    requires NarrowSession(parent, s, now).Ok?
    requires KeepsLimits(NarrowSession(parent, s, now).value, parent)
    requires CheckSessionAccess(fold, NarrowSession(parent, s, now).value, c, t) == Admitted
    ensures CheckSessionAccess(fold, parent, c, t) == Admitted
  {
    var child := NarrowSession(parent, s, now).value;
    SubsetListed(fold, c.contract, child.contracts, parent.contracts);
    SubsetListed(fold, c.method_, child.methods, parent.methods);
    SubsetListed(fold, c.chain, child.chains, parent.chains);
    DerivedLimits(parent, s, now);
  }

  /** An operation the derived session admits and its parent refuses. */
  lemma WideningContext(fold: string -> string, parent: Session, s: Scope, now: int) returns (c: Context)
    requires NarrowSession(parent, s, now).Ok?
    requires !KeepsLimits(NarrowSession(parent, s, now).value, parent)
    ensures CheckSessionAccess(fold, NarrowSession(parent, s, now).value, c, now) == Admitted
    ensures CheckSessionAccess(fold, parent, c, now) == Refused
  {
    DerivedLimits(parent, s, now);
    var child := NarrowSession(parent, s, now).value;
    var p, d, d' := LimitOf(parent.maxPerTx), LimitOf(parent.maxDaily), LimitOf(child.maxDaily);
    if d > 0 && d' < 0 {
      c := Context(None, None, None, Str(0), Str(d + 1));
    } else {
      c := Context(None, None, None, Str(p + 1), Str(0));
    }
  }

  /** One derivation narrows access exactly when it keeps the parent's limits. */
  lemma NarrowingExactly(fold: string -> string, parent: Session, s: Scope, now: int)
    requires NarrowSession(parent, s, now).Ok?
    ensures Refines(fold, NarrowSession(parent, s, now).value, parent)
        <==> KeepsLimits(NarrowSession(parent, s, now).value, parent)
  {
    DerivedLimits(parent, s, now);
    var child := NarrowSession(parent, s, now).value;
    if KeepsLimits(child, parent) {
      forall c, t | CheckSessionAccess(fold, child, c, t) == Admitted
        ensures CheckSessionAccess(fold, parent, c, t) == Admitted
      {
        DerivedRefines(fold, parent, s, now, c, t);
      }
    } else {
      var c := WideningContext(fold, parent, s, now);
    }
  }

  /** A chain of derivations: each session narrows the one before it at some time. */
  ghost predicate Chain(sessions: seq<Session>) {
    forall i | 0 < i < |sessions| :: Derives(sessions[i - 1], sessions[i])
  }

  ghost predicate Derives(parent: Session, child: Session) {
    exists s, now :: NarrowSession(parent, s, now) == Ok(child)
  }

  /** Along any chain whose derived limits are non-negative, the last session admits
      nothing the first does not. */
  lemma {:induction false} ChainRefines(fold: string -> string, sessions: seq<Session>)
    requires sessions != [] && Chain(sessions)
    requires forall i | 0 < i < |sessions| :: NonNegativeLimits(sessions[i])
    ensures Refines(fold, sessions[|sessions| - 1], sessions[0])
    decreases |sessions|
  {
    var n := |sessions| - 1;
    if n > 0 {
      ChainRefines(fold, sessions[..n]);
      assert Derives(sessions[n - 1], sessions[n]);
      var s, now :| NarrowSession(sessions[n - 1], s, now) == Ok(sessions[n]);
      DerivedLimits(sessions[n - 1], s, now);
      NarrowingExactly(fold, sessions[n - 1], s, now);
    }
  }

  /** For a live parent and its own agent, derivation fails only on scope or ttl range:
      the clamped expiry always passes the equality check and never outlives the parent. */
  lemma DerivationFailsOnlyOnScopeOrTtl(parent: Session, s: Scope, now: int)
    requires 0 < now < parent.expiresAt && s.agentId == parent.agentId != ""
    ensures var r, ttl := NarrowSession(parent, s, now), ClampedTtl(parent, s, now);
      && (r.Ok? <==> FirstWidening(parent, s).None? && MIN_TTL_MS <= ttl <= MAX_TTL_MS)
      && (r.Err? ==> r.error.Widening? || r.error == TtlRange)
      && (r.Ok? ==> r.value.issuedAt == now && r.value.expiresAt == now + ttl <= parent.expiresAt)
  {
  }
}
