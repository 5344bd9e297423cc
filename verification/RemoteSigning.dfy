/**
 Remote signing (mcp-server/src/remote-signer.js, mcp-server/src/remote-signer-keeper.js):
 what client and Keeper authenticate to each other, and the Keeper's replay and policy checks.
 */
module RemoteSigning {
  import opened Common
  import opened JsonText
  import opened CanonicalJson
  import JsonReader

  /** The member names of both messages. */
  datatype Names = Names(custodyToken: Text, agentId: Text, session: Text, intent: Text, requestedAt: Text, nonce: Text,
                         ok: Text, signature: Text, digest: Text)

  const NAMES := Names(
    [99, 117, 115, 116, 111, 100, 121, 84, 111, 107, 101, 110], [97, 103, 101, 110, 116, 73, 100],
    [115, 101, 115, 115, 105, 111, 110], [105, 110, 116, 101, 110, 116],
    [114, 101, 113, 117, 101, 115, 116, 101, 100, 65, 116], [110, 111, 110, 99, 101],
    [111, 107], [115, 105, 103, 110, 97, 116, 117, 114, 101], [100, 105, 103, 101, 115, 116])

  /** All that is needed of the names: the two messages begin with different ones. */
  predicate Distinguish(names: Names) {
    names.custodyToken != names.ok
  }

  lemma NamesDistinguish()
    ensures Distinguish(NAMES)
  {
    assert |NAMES.custodyToken| != |NAMES.ok|;
  }

  // ---- Messages ----------------------------------------------------------

  datatype Request = Request(token: Json, agentId: Json, session: Json, intent: Json, requestedAt: Json, nonce: Json)

  datatype Response = Response(signature: Text, digest: Json, requestedAt: Json, nonce: Json)

  /** As received: parsed JSON. */
  predicate OnWire(v: Json) {
    Clean(v) && Proper(v)
  }

  predicate WireRequest(r: Request) {
    OnWire(r.token) && OnWire(r.agentId) && OnWire(r.session)
        && OnWire(r.intent) && OnWire(r.requestedAt) && OnWire(r.nonce)
  }

  predicate WireResponse(r: Response) {
    OnWire(r.digest) && OnWire(r.requestedAt) && OnWire(r.nonce)
  }

  /** The texts that the shared secret authenticates. */
  function RequestText(names: Names, r: Request): Text {
    TextOf(JObj(RequestMembers(names, r)))
  }

  function RequestMembers(names: Names, r: Request): Members {
    Member(names.custodyToken, r.token, Member(names.agentId, r.agentId, Member(names.session, r.session,
      Member(names.intent, r.intent,
          Member(names.requestedAt, r.requestedAt, Member(names.nonce, r.nonce, NoMembers))))))
  }

  function ResponseText(names: Names, r: Response): Text {
    TextOf(JObj(ResponseMembers(names, r)))
  }

  function ResponseMembers(names: Names, r: Response): Members {
    Member(names.ok, JBool(true), Member(names.signature, JStr(r.signature), Member(names.digest, r.digest,
      Member(names.requestedAt, r.requestedAt, Member(names.nonce, r.nonce, NoMembers)))))
  }

  lemma ObjectTextUnique(a: Members, b: Members)
    requires CleanMembers(a) && CleanMembers(b) && TextOf(JObj(a)) == TextOf(JObj(b))
    ensures a == b
  {
    assert TextOf(JObj(a)) + [] == TextOf(JObj(a)) && TextOf(JObj(b)) + [] == TextOf(JObj(b));
    TextUnique(JObj(a), [], JObj(b), []);
  }

  lemma CleanMember(key: Text, value: Json, rest: Members)
    ensures CleanMembers(Member(key, value, rest)) <==> Clean(value) && CleanMembers(rest)
  {
  }

  lemma RequestClean(names: Names, r: Request)
    requires WireRequest(r)
    ensures CleanMembers(RequestMembers(names, r))
  {
    var m := Member(names.nonce, r.nonce, NoMembers);
    CleanMember(names.nonce, r.nonce, NoMembers);
    CleanMember(names.requestedAt, r.requestedAt, m);
    m := Member(names.requestedAt, r.requestedAt, m);
    CleanMember(names.intent, r.intent, m);
    m := Member(names.intent, r.intent, m);
    CleanMember(names.session, r.session, m);
    m := Member(names.session, r.session, m);
    CleanMember(names.agentId, r.agentId, m);
    CleanMember(names.custodyToken, r.token, Member(names.agentId, r.agentId, m));
  }

  lemma ResponseClean(names: Names, r: Response)
    requires WireResponse(r)
    ensures CleanMembers(ResponseMembers(names, r))
  {
    var m := Member(names.nonce, r.nonce, NoMembers);
    CleanMember(names.nonce, r.nonce, NoMembers);
    CleanMember(names.requestedAt, r.requestedAt, m);
    m := Member(names.requestedAt, r.requestedAt, m);
    CleanMember(names.digest, r.digest, m);
    m := Member(names.digest, r.digest, m);
    CleanMember(names.signature, JStr(r.signature), m);
    CleanMember(names.ok, JBool(true), Member(names.signature, JStr(r.signature), m));
  }

  lemma RequestTextBinds(names: Names, p: Request, q: Request)
    requires WireRequest(p) && WireRequest(q) && RequestText(names, p) == RequestText(names, q)
    ensures p == q
  {
    RequestClean(names, p);
    RequestClean(names, q);
    ObjectTextUnique(RequestMembers(names, p), RequestMembers(names, q));
  }

  lemma ResponseTextBinds(names: Names, p: Response, q: Response)
    requires WireResponse(p) && WireResponse(q) && ResponseText(names, p) == ResponseText(names, q)
    ensures p == q
  {
    ResponseClean(names, p);
    ResponseClean(names, q);
    ObjectTextUnique(ResponseMembers(names, p), ResponseMembers(names, q));
  }

  lemma ObjectReads(members: Members)
    requires CleanMembers(members)
    ensures JsonReader.ReadValue(TextOf(JObj(members))) == Some((JObj(members), []))
  {
    JsonReader.ReadsBack(JObj(members), []);
    assert TextOf(JObj(members)) + [] == TextOf(JObj(members));
  }

  lemma FirstMember(key: Text, value: Json, rest: Members)
    ensures Lookup(Member(key, value, rest), key) == value
    ensures forall k | k != key :: Lookup(Member(key, value, rest), k) == Lookup(rest, k)
  {
  }

  /** No two names of one message are the same. */
  predicate NamesApart(names: Names) {
    && names.custodyToken !in {names.agentId, names.session, names.intent, names.requestedAt, names.nonce}
    && names.agentId !in {names.session, names.intent, names.requestedAt, names.nonce}
    && names.session !in {names.intent, names.requestedAt, names.nonce}
    && names.intent !in {names.requestedAt, names.nonce} && names.requestedAt != names.nonce
    && names.ok !in {names.signature, names.digest, names.requestedAt, names.nonce}
    && names.signature !in {names.digest, names.requestedAt, names.nonce}
    && names.digest !in {names.requestedAt, names.nonce}
  }

  lemma NamesAreApart()
    ensures NamesApart(NAMES)
  {
    var n := NAMES;
    assert |n.custodyToken| == 12 && |n.agentId| == 7 && |n.session| == 7 && |n.intent| == 6;
    assert |n.requestedAt| == 11 && |n.nonce| == 5 && |n.ok| == 2 && |n.signature| == 9 && |n.digest| == 6;
    assert n.agentId[0] == 97 && n.session[0] == 115;
  }

  /** What whoever reads an authenticated request finds in it. */
  lemma RequestTextReads(names: Names, r: Request)
    requires NamesApart(names) && WireRequest(r)
    ensures var o := JObj(RequestMembers(names, r));
      && JsonReader.ReadValue(RequestText(names, r)) == Some((o, []))
      && Field(o, names.custodyToken) == r.token && Field(o, names.agentId) == r.agentId
      && Field(o, names.session) == r.session && Field(o, names.intent) == r.intent
      && Field(o, names.requestedAt) == r.requestedAt && Field(o, names.nonce) == r.nonce
  {
    RequestClean(names, r);
    ObjectReads(RequestMembers(names, r));
    var m := NoMembers;
    FirstMember(names.nonce, r.nonce, m);
    m := Member(names.nonce, r.nonce, m);
    FirstMember(names.requestedAt, r.requestedAt, m);
    m := Member(names.requestedAt, r.requestedAt, m);
    FirstMember(names.intent, r.intent, m);
    m := Member(names.intent, r.intent, m);
    FirstMember(names.session, r.session, m);
    m := Member(names.session, r.session, m);
    FirstMember(names.agentId, r.agentId, m);
    m := Member(names.agentId, r.agentId, m);
    FirstMember(names.custodyToken, r.token, m);
  }

  /** And in an authenticated response, which says that all is well. */
  lemma ResponseTextReads(names: Names, r: Response)
    requires NamesApart(names) && WireResponse(r)
    ensures var o := JObj(ResponseMembers(names, r));
      && JsonReader.ReadValue(ResponseText(names, r)) == Some((o, []))
      && Field(o, names.ok) == JBool(true) && Field(o, names.signature) == JStr(r.signature)
      && Field(o, names.digest) == r.digest
      && Field(o, names.requestedAt) == r.requestedAt && Field(o, names.nonce) == r.nonce
  {
    ResponseClean(names, r);
    ObjectReads(ResponseMembers(names, r));
    var m := NoMembers;
    FirstMember(names.nonce, r.nonce, m);
    m := Member(names.nonce, r.nonce, m);
    FirstMember(names.requestedAt, r.requestedAt, m);
    m := Member(names.requestedAt, r.requestedAt, m);
    FirstMember(names.digest, r.digest, m);
    m := Member(names.digest, r.digest, m);
    FirstMember(names.signature, JStr(r.signature), m);
    m := Member(names.signature, JStr(r.signature), m);
    FirstMember(names.ok, JBool(true), m);
  }

  /** One secret authenticates both directions: no response can pass for a request. */
  lemma DirectionsDiffer(names: Names, p: Request, q: Response)
    requires Distinguish(names) && WireRequest(p) && WireResponse(q)
    ensures RequestText(names, p) != ResponseText(names, q)
  {
    RequestClean(names, p);
    ResponseClean(names, q);
    if RequestText(names, p) == ResponseText(names, q) {
      ObjectTextUnique(RequestMembers(names, p), ResponseMembers(names, q));
    }
  }

  predicate Given(v: Json) {
    !v.JUndef? && !v.JNull? && v != JStr([])
  }

  /** The shape check of both sides. */
  predicate WellShaped(names: Names, r: Request) {
    && Given(r.token) && Given(r.agentId) && Given(r.session)
        && Given(r.intent) && Given(r.requestedAt) && Given(r.nonce)
    && r.intent.JObj? && !Field(r.intent, names.nonce).JUndef? && !Field(r.intent, names.nonce).JNull?
    && r.requestedAt.JNum? && r.requestedAt.text != [48] && (r.requestedAt.text != [] ==> r.requestedAt.text[0] != 45)
  }

  // ---- Replay ------------------------------------------------------------

  function Pruned(seen: map<Text, int>, now: int): map<Text, int> {
    map n | n in seen && seen[n] > now :: seen[n]
  }

  function CheckReplay(seen: map<Text, int>, ttlMs: int, nonce: Text, now: int): (map<Text, int>, bool) {
    var kept := Pruned(seen, now);
    if nonce in kept then (kept, false) else (kept[nonce := now + ttlMs], true)
  }

  // ---- Policy ------------------------------------------------------------

  /** A limit: none, one that does not parse, or an amount; zero is no limit. */
  datatype Cap = NoCap | BadCap | Cap(n: int)

  /** What a session grants; lists are lower-cased and empty ones do not restrict. */
  datatype Terms = Terms(expiresAt: Option<int>, contracts: set<Text>, methods: set<Text>, chains: set<Text>,
                         maxPerTx: Cap, maxDaily: Cap)

  datatype Amount = NoAmount | BadAmount | Amount(n: int)

  datatype Ask = Ask(contract: Option<Text>, method_: Option<Text>, chain: Option<Text>, amount: Amount)

  /** How terms and asks are read off JSON; key order does not matter to terms. */
  datatype Reading = Reading(terms: Meaning -> Terms, ask: Json -> Ask)

  datatype Daily = Daily(date: int, total: int)

  predicate Listed(asked: Option<Text>, allowed: set<Text>) {
    asked.Some? && allowed != {} ==> asked.value in allowed
  }

  predicate WithinTerms(t: Terms, a: Ask, now: int) {
    && (t.expiresAt.Some? ==> now <= t.expiresAt.value)
    && Listed(a.contract, t.contracts) && Listed(a.method_, t.methods) && Listed(a.chain, t.chains)
    && match a.amount
       case NoAmount => true
       case BadAmount => false
       case Amount(n) =>
         n >= 0 && !t.maxPerTx.BadCap? && !t.maxDaily.BadCap?
             && (t.maxPerTx.Cap? && t.maxPerTx.n > 0 ==> n <= t.maxPerTx.n)
  }

  function Today(ledger: map<Text, Daily>, agent: Text, date: int): Daily {
    if agent in ledger && ledger[agent].date == date then ledger[agent] else Daily(date, 0)
  }

  predicate IsCapped(t: Terms, a: Ask) {
    a.amount.Amount? && t.maxDaily.Cap? && t.maxDaily.n > 0
  }

  predicate SameSession(keyring: map<Text, Json>, agent: Text, session: Json) {
    agent in keyring && Canon(session, {}) == Canon(keyring[agent], {})
  }

  /** The decision, and the ledger after it: allowing charges the amount. */
  function CheckPolicy(ledger: map<Text, Daily>, keyring: map<Text, Json>, reading: Reading,
                       agent: Text, session: Json, intent: Json, date: int, now: int): (map<Text, Daily>, bool) {
    var t, a := reading.terms(MeaningOf(session, {})), reading.ask(intent);
    if !SameSession(keyring, agent, session) || !WithinTerms(t, a, now) then (ledger, false)
    else if !IsCapped(t, a) then (ledger, true)
    else
      var today := Today(ledger, agent, date);
      if today.total + a.amount.n > t.maxDaily.n then (ledger[agent := today], false)
      else (ledger[agent := Daily(date, today.total + a.amount.n)], true)
  }

  // ---- What the checks mean ----------------------------------------------

  /** Every field is there, the intent has a nonce, and the time is a positive number. */
  ghost predicate Complete(names: Names, r: Request) {
    && {r.token, r.agentId, r.session, r.intent, r.requestedAt, r.nonce} !! {JUndef, JNull, JStr([])}
    && r.intent.JObj? && Field(r.intent, names.nonce) !in {JUndef, JNull}
    && r.requestedAt.JNum? && r.requestedAt.text != [48] && !([45] <= r.requestedAt.text)
  }

  lemma WellShapedExactly(names: Names, r: Request)
    ensures WellShaped(names, r) <==> Complete(names, r)
  {
    var all, absent := {r.token, r.agentId, r.session, r.intent, r.requestedAt, r.nonce}, {JUndef, JNull, JStr([])};
    assert r.token in all && r.agentId in all && r.session in all;
    assert r.intent in all && r.requestedAt in all && r.nonce in all;
    assert all !! absent <==> forall v | v in all :: v !in absent;
  }

  /** What a session's terms grant, whatever was charged: not past an expiry that is given;
      each thing asked for on its list, if that restricts; an amount, if any, an integer not
      negative, under limits that parse, within a positive one for a transaction. */
  ghost predicate Grants(t: Terms, a: Ask, at: int) {
    && (t.expiresAt == None || at <= t.expiresAt.value)
    && (a.contract == None || t.contracts == {} || a.contract.value in t.contracts)
    && (a.method_ == None || t.methods == {} || a.method_.value in t.methods)
    && (a.chain == None || t.chains == {} || a.chain.value in t.chains)
    && (a.amount == NoAmount || (
          && a.amount.Amount? && a.amount.n >= 0 && t.maxPerTx != BadCap && t.maxDaily != BadCap
          && forall limit | t.maxPerTx == Cap(limit) && limit > 0 :: a.amount.n <= limit))
  }

  /** An amount fits a positive daily limit beside what was charged. */
  ghost predicate FitsDay(t: Terms, a: Ask, charged: int) {
    forall n, limit | a.amount == Amount(n) && t.maxDaily == Cap(limit) && limit > 0 :: charged + n <= limit
  }

  /** What an allowed request adds to its agent's day. */
  ghost function Charges(t: Terms, a: Ask): int {
    if a.amount.Amount? && t.maxDaily.Cap? && t.maxDaily.n > 0 then a.amount.n else 0
  }

  ghost function OnDay(ledger: map<Text, Daily>, agent: Text, date: int): int {
    if agent in ledger && ledger[agent].date == date then ledger[agent].total else 0
  }

  lemma GrantsExactly(t: Terms, a: Ask, at: int)
    ensures WithinTerms(t, a, at) <==> Grants(t, a, at)
  {
  }

  /** The policy allows exactly the agent's registered session, up to key order, for what its
      terms grant and the day has room for; allowing charges the agent's day, and nobody
      else's entry changes. */
  lemma AllowedExactly(ledger: map<Text, Daily>, keyring: map<Text, Json>, reading: Reading,
                       agent: Text, session: Json, intent: Json, date: int, now: int)
    requires Proper(session) && (agent in keyring ==> Proper(keyring[agent]))
    ensures var (after, allowed) := CheckPolicy(ledger, keyring, reading, agent, session, intent, date, now);
      var t, a := reading.terms(MeaningOf(session, {})), reading.ask(intent);
      && (allowed <==>
            && agent in keyring && MeaningOf(session, {}) == MeaningOf(keyring[agent], {})
            && Grants(t, a, now) && FitsDay(t, a, OnDay(ledger, agent, date)))
      && OnDay(after, agent, date) == OnDay(ledger, agent, date) + (if allowed then Charges(t, a) else 0)
      && after - {agent} == ledger - {agent}
  {
    var t, a := reading.terms(MeaningOf(session, {})), reading.ask(intent);
    if agent in keyring {
      CanonInjective(session, keyring[agent], {});
    }
    GrantsExactly(t, a, now);
  }

  // ---- The Keeper's state ------------------------------------------------

  class Keeper {
    const keyring: map<Text, Json>
    const reading: Reading
    const ttlMs: int
    var seen: map<Text, int>
    var ledger: map<Text, Daily>

    constructor (keyring: map<Text, Json>, reading: Reading, ttlMs: int)
      ensures this.keyring == keyring && this.reading == reading && this.ttlMs == ttlMs
      ensures seen == map[] && ledger == map[]
    {
      this.keyring := keyring;
      this.reading := reading;
      this.ttlMs := ttlMs;
      seen := map[];
      ledger := map[];
    }

    method RecordNonce(nonce: Text, now: int) returns (ok: bool)
      modifies this
      ensures (seen, ok) == CheckReplay(old(seen), ttlMs, nonce, now)
      ensures ledger == old(ledger)
    {
      var left := seen.Keys;
      while left != {}
        invariant left <= old(seen).Keys && ledger == old(ledger)
        invariant forall n | n in old(seen) :: n in seen <==> n in left || old(seen)[n] > now
        invariant forall n | n in seen :: n in old(seen) && seen[n] == old(seen)[n]
        decreases |left|
      {
        var n :| n in left;
        left := left - {n};
        if n in seen && seen[n] <= now {
          seen := seen - {n};
        }
      }
      assert seen == Pruned(old(seen), now);
      if nonce in seen {
        return false;
      }
      seen := seen[nonce := now + ttlMs];
      ok := true;
    }

    method Authorize(agent: Text, session: Json, intent: Json, date: int, now: int) returns (allowed: bool)
      modifies this
      ensures (ledger, allowed) == CheckPolicy(old(ledger), keyring, reading, agent, session, intent, date, now)
      ensures seen == old(seen)
    {
      if agent !in keyring || Canon(session, {}) != Canon(keyring[agent], {}) {
        return false;
      }
      var t, a := reading.terms(MeaningOf(session, {})), reading.ask(intent);
      if !WithinTerms(t, a, now) {
        return false;
      }
      if IsCapped(t, a) {
        var today := Today(ledger, agent, date);
        ledger := ledger[agent := today];
        if today.total + a.amount.n > t.maxDaily.n {
          return false;
        }
        ledger := ledger[agent := Daily(date, today.total + a.amount.n)];
        assert ledger == old(ledger)[agent := Daily(date, today.total + a.amount.n)];
      }
      allowed := true;
    }
  }
}
