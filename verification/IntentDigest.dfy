/**
 The signed preimage of an asset intent (packages/chain-eth/src/canonical.js): twelve
 32-byte words, and why no two intents share it. Keccak is an arbitrary function with
 32-byte results; where two intents could only agree through a collision, the lemmas
 hand that collision back.
 */
module IntentDigest {
  import opened Common
  import opened Positional

  type Hash = seq<nat> -> seq<nat>

  ghost predicate WordSized(k: Hash) {
    forall x :: |k(x)| == 32
  }

  ghost predicate Collision(k: Hash, x: seq<nat>, y: seq<nat>) {
    x != y && k(x) == k(y)
  }

  /** A string field; only the UTF-8 bytes of a text that is not all white space are kept. */
  datatype Text = NoText | BlankText | Text(utf8: seq<nat>)

  /** A numeric field after truncation of numbers and trimming of strings. */
  datatype Number = NoNumber | BlankNumber | NotAnInteger | Integer(v: int)

  datatype Intent = Intent(
    action: Text, chain: Text, asset: Text, amount: Number,
    recipient: Text, contract: Text, method_: Text,
    nonce: Number, agentId: Text,
    sessionIssuedAt: Number, sessionExpiresAt: Number, sessionId: Option<string>)

  datatype Field = Action | Chain | Asset | Amount | Recipient | Contract | Method
    | Nonce | AgentId | SessionIssuedAt | SessionExpiresAt | SessionId

  datatype Refusal = Missing(f: Field) | Malformed | Negative | Overflow | NotBytes32

  // ---- 32-byte words -----------------------------------------------------

  const TWO_TO_256: nat := 0x1_0000000000000000_0000000000000000_0000000000000000_0000000000000000

  function Power(k: nat): nat {
    if k == 0 then 1 else 256 * Power(k - 1)
  }

  lemma PowerOf32()
    ensures Power(32) == TWO_TO_256
  {
    assert Power(8) == 0x1_0000000000000000;
    assert Power(16) == 0x1_0000000000000000_0000000000000000;
    assert Power(24) == 0x1_0000000000000000_0000000000000000_0000000000000000;
  }

  /** The low k bytes of a number, most significant first. */
  function LowBytes(v: nat, k: nat): (w: seq<nat>)
    ensures |w| == k && Bounded(w, Byte)
  {
    if k == 0 then [] else LowBytes(v / 256, k - 1) + [v % 256]
  }

  lemma {:induction false} LowBytesValue(v: nat, k: nat)
    requires v < Power(k)
    ensures Value(LowBytes(v, k), Byte) == v
    decreases k
  {
    if k > 0 {
      LowBytesValue(v / 256, k - 1);
      ValuePush(LowBytes(v / 256, k - 1), v % 256, Byte);
    }
  }

  function Word(n: Number): Result<seq<nat>, Refusal> {
    match n
    case NoNumber => Err(Malformed)
    case BlankNumber => Err(Malformed)
    case NotAnInteger => Err(Malformed)
    case Integer(v) =>
      if v < 0 then Err(Negative) else if v >= TWO_TO_256 then Err(Overflow) else Ok(LowBytes(v, 32))
  }

  /** A word is accepted exactly below 2^256 and reads back as the number it came from. */
  lemma WordIsBigEndian(n: Number)
    ensures Word(n).Ok? <==> n.Integer? && 0 <= n.v < TWO_TO_256
    ensures Word(n).Ok? ==> |Word(n).value| == 32 && Value(Word(n).value, Byte) == n.v
  {
    PowerOf32();
    if Word(n).Ok? {
      LowBytesValue(n.v, 32);
    }
  }

  method ToU256(n: Number) returns (r: Result<seq<nat>, Refusal>)
    ensures r == Word(n)
    ensures r.Ok? ==> |r.value| == 32 && Value(r.value, Byte) == n.v
  {
    WordIsBigEndian(n);
    if !n.Integer? {
      return Err(Malformed);
    }
    if n.v < 0 {
      return Err(Negative);
    }
    if n.v >= TWO_TO_256 {
      return Err(Overflow);
    }
    var out := new nat[32];
    var x: nat := n.v;
    var i := 31;
    assert LowBytes(x, 32) + out[32..] == LowBytes(x, 32);
    while i >= 0
      invariant -1 <= i <= 31
      invariant LowBytes(x, i + 1) + out[i + 1..] == LowBytes(n.v, 32)
    {
      out[i] := x % 256;
      assert LowBytes(x, i + 1) == LowBytes(x / 256, i) + [x % 256];
      assert out[i..] == [x % 256] + out[i + 1..];
      x := x / 256;
      i := i - 1;
    }
    assert [] + out[0..] == out[..];
    r := Ok(out[..]);
  }

  // ---- The session id ----------------------------------------------------

  function HexDigit(c: char): (d: Option<nat>)
    ensures d.Some? ==> d.value < 16
  {
    if '0' <= c <= '9' then Some((c - '0') as nat)
    else if 'a' <= c <= 'f' then Some((c - 'a') as nat + 10)
    else if 'A' <= c <= 'F' then Some((c - 'A') as nat + 10)
    else None
  }

  function StripPrefix(s: string): string {
    if |s| >= 2 && s[0] == '0' && (s[1] == 'x' || s[1] == 'X') then s[2..] else s
  }

  const LOWER: string := "0123456789abcdef"
  const UPPER: string := "0123456789ABCDEF"

  /** The digits are those of either case, and stand for their places. */
  lemma HexDigitExactly(c: char, v: int)
    ensures HexDigit(c) == Some(v) <==> 0 <= v < 16 && (LOWER[v] == c || UPPER[v] == c)
  {
  }

  /** The last 64 characters. */
  ghost function LastOf(sessionId: string): string
    requires |sessionId| >= 64
  {
    sessionId[|sessionId| - 64..]
  }

  /** Sixty-four hexadecimal digits, after an optional 0x. */
  ghost predicate SpellsBytes32(sessionId: string) {
    && (|sessionId| == 64 || (|sessionId| == 66 && ("0x" <= sessionId || "0X" <= sessionId)))
    && forall i | 0 <= i < 64 :: HexDigit(LastOf(sessionId)[i]).Some?
  }

  ghost function DigitsSpelt(sessionId: string): seq<nat>
    requires SpellsBytes32(sessionId)
  {
    seq(64, i requires 0 <= i < 64 => HexDigit(LastOf(sessionId)[i]).value)
  }

  /** What the code strips and reads are these digits. */
  lemma StrippedIsLast(sessionId: string)
    ensures Bytes32(sessionId).Ok? <==> SpellsBytes32(sessionId)
    ensures SpellsBytes32(sessionId) ==> StripPrefix(sessionId) == LastOf(sessionId)
  {
    if |sessionId| >= 64 {
      var hex, tail := StripPrefix(sessionId), LastOf(sessionId);
      assert |sessionId| == 64 ==> tail == sessionId && tail[1] == sessionId[1];
      assert HexDigit('x').None? && HexDigit('X').None?;
      assert |hex| == 64 ==> hex == tail;
    }
  }

  function Bytes32(sessionId: string): (r: Result<seq<nat>, Refusal>)
    ensures r.Ok? ==> |r.value| == 32
  {
    var hex := StripPrefix(sessionId);
    if |hex| == 64 && forall i | 0 <= i < 64 :: HexDigit(hex[i]).Some? then
      Ok(FromHex(seq(64, i requires 0 <= i < 64 => HexDigit(hex[i]).value), 32))
    else Err(NotBytes32)
  }

  /** A session id is accepted exactly when it spells 32 bytes, and they are the number its
      digits spell. */
  lemma Bytes32Exactly(sessionId: string)
    ensures Bytes32(sessionId).Ok? <==> SpellsBytes32(sessionId)
    ensures Bytes32(sessionId).Ok? ==> Bounded(Bytes32(sessionId).value, Byte)
    ensures Bytes32(sessionId).Ok? ==> Value(Bytes32(sessionId).value, Byte) == Value(DigitsSpelt(sessionId), Hex)
  {
    StrippedIsLast(sessionId);
    if SpellsBytes32(sessionId) {
      var hex, ds := StripPrefix(sessionId), DigitsSpelt(sessionId);
      assert ds == seq(64, i requires 0 <= i < 64 => HexDigit(hex[i]).value);
      FromHexValue(ds, 32);
    }
  }

  lemma DigitsBind(x: seq<nat>, ds: seq<nat>, y: seq<nat>, es: seq<nat>)
    requires |x| == |y| && Bounded(x, Byte) && Bounded(y, Byte)
    requires |ds| == |es| && Bounded(ds, Hex) && Bounded(es, Hex)
    requires Value(x, Byte) == Value(ds, Hex) && Value(y, Byte) == Value(es, Hex)
    ensures x == y <==> ds == es
  {
    if x == y {
      FixedWidthInjective(ds, es, Hex);
    }
    if ds == es {
      FixedWidthInjective(x, y, Byte);
    }
  }

  lemma DigitsBounded(sessionId: string)
    requires SpellsBytes32(sessionId)
    ensures |DigitsSpelt(sessionId)| == 64 && Bounded(DigitsSpelt(sessionId), Hex)
  {
  }

  /** So two ids stand for the same bytes exactly when they spell the same digits. */
  lemma Bytes32Binds(s: string, t: string)
    requires SpellsBytes32(s) && SpellsBytes32(t)
    ensures Bytes32(s) == Bytes32(t) <==> DigitsSpelt(s) == DigitsSpelt(t)
  {
    Bytes32Exactly(s);
    Bytes32Exactly(t);
    DigitsBounded(s);
    DigitsBounded(t);
    DigitsBind(Bytes32(s).value, DigitsSpelt(s), Bytes32(t).value, DigitsSpelt(t));
  }

  // ---- The preimage ------------------------------------------------------

  /** The first field the presence checks complain about, in the order they run. */
  function FirstMissing(p: Intent): Option<Field> {
    if p.amount.NoNumber? || p.amount.BlankNumber? then Some(Amount)
    else if p.nonce.NoNumber? || p.nonce.BlankNumber? then Some(Nonce)
    else if p.sessionId.None? then Some(SessionId)
    else if !p.action.Text? then Some(Action)
    else if !p.chain.Text? then Some(Chain)
    else if !p.asset.Text? then Some(Asset)
    else if !p.recipient.Text? then Some(Recipient)
    else if !p.contract.Text? then Some(Contract)
    else if !p.method_.Text? then Some(Method)
    else if !p.agentId.Text? then Some(AgentId)
    else if p.sessionIssuedAt.NoNumber? then Some(SessionIssuedAt)
    else if p.sessionExpiresAt.NoNumber? then Some(SessionExpiresAt)
    else None
  }

  /** The words in digest order, or the first refusal. */
  function Words(k: Hash, p: Intent): Result<seq<seq<nat>>, Refusal> {
    var missing := FirstMissing(p);
    if missing.Some? then Err(Missing(missing.value)) else
      var amount, nonce := Word(p.amount), Word(p.nonce);
      var issued, expires := Word(p.sessionIssuedAt), Word(p.sessionExpiresAt);
      var id := Bytes32(p.sessionId.value);
      if amount.Err? then Err(amount.error)
      else if nonce.Err? then Err(nonce.error)
      else if issued.Err? then Err(issued.error)
      else if expires.Err? then Err(expires.error)
      else if id.Err? then Err(id.error)
      else Ok(Interleave(HashedTexts(k, p), [amount.value, nonce.value, issued.value, expires.value, id.value]))
  }

  function HashedTexts(k: Hash, p: Intent): seq<seq<nat>>
    requires FirstMissing(p).None?
  {
    [k(p.action.utf8), k(p.chain.utf8), k(p.asset.utf8), k(p.recipient.utf8),
     k(p.contract.utf8), k(p.method_.utf8), k(p.agentId.utf8)]
  }

  /** The digest order of seven hashed texts and five plain words. */
  function Interleave(h: seq<seq<nat>>, w: seq<seq<nat>>): seq<seq<nat>>
    requires |h| == 7 && |w| == 5
  {
    [h[0], h[1], h[2], w[0], h[3], h[4], h[5], w[1], h[6], w[2], w[3], w[4]]
  }

  function Concat(parts: seq<seq<nat>>): seq<nat> {
    if parts == [] then [] else Concat(parts[..|parts| - 1]) + parts[|parts| - 1]
  }

  function Preimage(k: Hash, p: Intent): Result<seq<nat>, Refusal> {
    match Words(k, p)
    case Ok(ws) => Ok(Concat(ws))
    case Err(e) => Err(e)
  }

  function HashIntentDigest(k: Hash, p: Intent): Result<seq<nat>, Refusal> {
    match Preimage(k, p)
    case Ok(pre) => Ok(k(pre))
    case Err(e) => Err(e)
  }

  ghost predicate AllWords(parts: seq<seq<nat>>) {
    forall i | 0 <= i < |parts| :: |parts[i]| == 32
  }

  lemma {:induction false} ConcatInjective(a: seq<seq<nat>>, b: seq<seq<nat>>)
    requires AllWords(a) && AllWords(b) && |a| == |b| && Concat(a) == Concat(b)
    ensures a == b
    decreases |a|
  {
    if a != [] {
      var n := |a| - 1;
      ConcatLength(a[..n]);
      ConcatLength(b[..n]);
      assert Concat(a)[..32 * n] == Concat(a[..n]) && Concat(a)[32 * n..] == a[n];
      assert Concat(b)[..32 * n] == Concat(b[..n]) && Concat(b)[32 * n..] == b[n];
      ConcatInjective(a[..n], b[..n]);
      assert a == a[..n] + [a[n]] && b == b[..n] + [b[n]];
    }
  }

  lemma {:induction false} ConcatLength(parts: seq<seq<nat>>)
    requires AllWords(parts)
    ensures |Concat(parts)| == 32 * |parts|
    decreases |parts|
  {
    if parts != [] {
      ConcatLength(parts[..|parts| - 1]);
    }
  }

  // ---- What the digest binds ---------------------------------------------

  ghost predicate Digestible(p: Intent) {
    && FirstMissing(p).None?
    && Word(p.amount).Ok? && Word(p.nonce).Ok?
    && Word(p.sessionIssuedAt).Ok? && Word(p.sessionExpiresAt).Ok?
    && Bytes32(p.sessionId.value).Ok?
  }

  /** The twelve signed fields agree; a session id counts as the 32 bytes it spells. */
  ghost predicate SameSignedFields(p: Intent, q: Intent)
    requires Digestible(p) && Digestible(q)
  {
    && p.action == q.action && p.chain == q.chain && p.asset == q.asset
    && p.recipient == q.recipient && p.contract == q.contract && p.method_ == q.method_
    && p.agentId == q.agentId
    && p.amount == q.amount && p.nonce == q.nonce
    && p.sessionIssuedAt == q.sessionIssuedAt && p.sessionExpiresAt == q.sessionExpiresAt
    && Bytes32(p.sessionId.value) == Bytes32(q.sessionId.value)
  }

  ghost predicate Fits256(n: Number) {
    n.Integer? && 0 <= n.v < TWO_TO_256
  }

  /** A digest exists exactly for intents that have all seven texts, four numbers below 2^256
      and a session id of 32 bytes. */
  lemma DigestExists(k: Hash, p: Intent)
    ensures HashIntentDigest(k, p).Ok? <==>
      && p.action.Text? && p.chain.Text? && p.asset.Text? && p.recipient.Text?
      && p.contract.Text? && p.method_.Text? && p.agentId.Text?
      && Fits256(p.amount) && Fits256(p.nonce) && Fits256(p.sessionIssuedAt) && Fits256(p.sessionExpiresAt)
      && p.sessionId.Some? && SpellsBytes32(p.sessionId.value)
    ensures HashIntentDigest(k, p).Ok? <==> Digestible(p)
  {
    WordIsBigEndian(p.amount);
    WordIsBigEndian(p.nonce);
    WordIsBigEndian(p.sessionIssuedAt);
    WordIsBigEndian(p.sessionExpiresAt);
    if p.sessionId.Some? {
      Bytes32Exactly(p.sessionId.value);
    }
  }

  /** A field without what is asked of it at all. */
  ghost predicate Lacks(p: Intent, f: Field) {
    match f
    case Action => !p.action.Text?
    case Chain => !p.chain.Text?
    case Asset => !p.asset.Text?
    case Recipient => !p.recipient.Text?
    case Contract => !p.contract.Text?
    case Method => !p.method_.Text?
    case AgentId => !p.agentId.Text?
    case Amount => p.amount.NoNumber? || p.amount.BlankNumber?
    case Nonce => p.nonce.NoNumber? || p.nonce.BlankNumber?
    case SessionIssuedAt => p.sessionIssuedAt.NoNumber?
    case SessionExpiresAt => p.sessionExpiresAt.NoNumber?
    case SessionId => p.sessionId.None?
  }

  ghost predicate IsRefusal(n: Number, refusal: Refusal) {
    || (refusal.Malformed? && !n.Integer?)
    || (refusal.Negative? && n.Integer? && n.v < 0)
    || (refusal.Overflow? && n.Integer? && n.v >= TWO_TO_256)
  }

  /** A refusal is true of the field it names, or of some number or the session id; what is
      missing is told first. */
  lemma RefusalIsTrue(k: Hash, p: Intent, f: Field)
    requires HashIntentDigest(k, p).Err?
    ensures Lacks(p, f) ==> HashIntentDigest(k, p).error.Missing?
    ensures var refusal := HashIntentDigest(k, p).error;
      || (refusal.Missing? && Lacks(p, refusal.f))
      || IsRefusal(p.amount, refusal) || IsRefusal(p.nonce, refusal)
      || IsRefusal(p.sessionIssuedAt, refusal) || IsRefusal(p.sessionExpiresAt, refusal)
      || (refusal.NotBytes32? && p.sessionId.Some? && !SpellsBytes32(p.sessionId.value))
  {
    if p.sessionId.Some? {
      Bytes32Exactly(p.sessionId.value);
    }
  }

  lemma WordInjective(m: Number, n: Number)
    requires Word(m).Ok? && Word(m) == Word(n)
    ensures m == n
  {
    WordIsBigEndian(m);
    WordIsBigEndian(n);
  }

  ghost function TextPairs(p: Intent, q: Intent): seq<(seq<nat>, seq<nat>)>
    requires Digestible(p) && Digestible(q)
  {
    [(p.action.utf8, q.action.utf8), (p.chain.utf8, q.chain.utf8), (p.asset.utf8, q.asset.utf8),
     (p.recipient.utf8, q.recipient.utf8), (p.contract.utf8, q.contract.utf8),
     (p.method_.utf8, q.method_.utf8), (p.agentId.utf8, q.agentId.utf8)]
  }

  lemma FirstDifference(pairs: seq<(seq<nat>, seq<nat>)>) returns (x: seq<nat>, y: seq<nat>)
    ensures (forall i | 0 <= i < |pairs| :: pairs[i].0 == pairs[i].1) || (x != y && (x, y) in pairs)
  {
    x, y := [], [];
    if i :| 0 <= i < |pairs| && pairs[i].0 != pairs[i].1 {
      x, y := pairs[i].0, pairs[i].1;
      assert pairs[i] == (x, y);
    }
  }

  lemma InterleaveInjective(g: seq<seq<nat>>, v: seq<seq<nat>>, h: seq<seq<nat>>, w: seq<seq<nat>>)
    requires |g| == |h| == 7 && |v| == |w| == 5
    requires Interleave(g, v) == Interleave(h, w)
    ensures g == h && v == w
  {
    var a, b := Interleave(g, v), Interleave(h, w);
    assert a[0] == b[0] && a[1] == b[1] && a[2] == b[2] && a[3] == b[3] && a[4] == b[4] && a[5] == b[5];
    assert a[6] == b[6] && a[7] == b[7] && a[8] == b[8] && a[9] == b[9] && a[10] == b[10] && a[11] == b[11];
  }

  /** The five words that are not hashes of texts. */
  ghost function PlainWords(p: Intent): seq<seq<nat>>
    requires Digestible(p)
  {
    [Word(p.amount).value, Word(p.nonce).value, Word(p.sessionIssuedAt).value,
     Word(p.sessionExpiresAt).value, Bytes32(p.sessionId.value).value]
  }

  lemma PlainWordsAgree(p: Intent, q: Intent)
    requires Digestible(p) && Digestible(q) && PlainWords(p) == PlainWords(q)
    ensures p.amount == q.amount && p.nonce == q.nonce
    ensures p.sessionIssuedAt == q.sessionIssuedAt && p.sessionExpiresAt == q.sessionExpiresAt
    ensures Bytes32(p.sessionId.value) == Bytes32(q.sessionId.value)
  {
    var a, b := PlainWords(p), PlainWords(q);
    assert a[0] == b[0] && a[1] == b[1] && a[2] == b[2] && a[3] == b[3] && a[4] == b[4];
    WordInjective(p.amount, q.amount);
    WordInjective(p.nonce, q.nonce);
    WordInjective(p.sessionIssuedAt, q.sessionIssuedAt);
    WordInjective(p.sessionExpiresAt, q.sessionExpiresAt);
  }

  lemma HashesAgree(k: Hash, p: Intent, q: Intent)
    requires Digestible(p) && Digestible(q) && HashedTexts(k, p) == HashedTexts(k, q)
    ensures forall i | 0 <= i < 7 :: k(TextPairs(p, q)[i].0) == k(TextPairs(p, q)[i].1)
  {
    var a, b := HashedTexts(k, p), HashedTexts(k, q);
    assert a[0] == b[0] && a[1] == b[1] && a[2] == b[2] && a[3] == b[3] && a[4] == b[4] && a[5] == b[5];
    assert a[6] == b[6];
  }

  lemma TextsAgree(p: Intent, q: Intent)
    requires Digestible(p) && Digestible(q)
    requires forall i | 0 <= i < 7 :: TextPairs(p, q)[i].0 == TextPairs(p, q)[i].1
    ensures p.action == q.action && p.chain == q.chain && p.asset == q.asset
    ensures p.recipient == q.recipient && p.contract == q.contract && p.method_ == q.method_
    ensures p.agentId == q.agentId
  {
    var t := TextPairs(p, q);
    assert t[0].0 == t[0].1 && t[1].0 == t[1].1 && t[2].0 == t[2].1 && t[3].0 == t[3].1;
    assert t[4].0 == t[4].1 && t[5].0 == t[5].1 && t[6].0 == t[6].1;
  }

  lemma InterleaveWords(h: seq<seq<nat>>, w: seq<seq<nat>>)
    requires |h| == 7 && |w| == 5 && AllWords(h) && AllWords(w)
    ensures AllWords(Interleave(h, w))
  {
  }

  lemma TextsAreWords(k: Hash, p: Intent)
    requires WordSized(k) && FirstMissing(p).None?
    ensures AllWords(HashedTexts(k, p))
  {
  }

  lemma PlainAreWords(p: Intent)
    requires Digestible(p)
    ensures AllWords(PlainWords(p))
  {
  }

  lemma PreimageOfDigestible(k: Hash, p: Intent)
    requires WordSized(k) && Digestible(p)
    ensures Preimage(k, p) == Ok(Concat(Interleave(HashedTexts(k, p), PlainWords(p))))
    ensures AllWords(Interleave(HashedTexts(k, p), PlainWords(p)))
  {
    TextsAreWords(k, p);
    PlainAreWords(p);
    InterleaveWords(HashedTexts(k, p), PlainWords(p));
    WordsOfDigestible(k, p);
  }

  lemma WordsOfDigestible(k: Hash, p: Intent)
    requires Digestible(p)
    ensures Words(k, p) == Ok(Interleave(HashedTexts(k, p), PlainWords(p)))
  {
  }

  lemma {:induction false} ConcatAt(parts: seq<seq<nat>>, i: nat)
    requires AllWords(parts) && i < |parts|
    ensures |Concat(parts)| == 32 * |parts| && Concat(parts)[32 * i..32 * (i + 1)] == parts[i]
    decreases |parts|
  {
    var n := |parts| - 1;
    ConcatLength(parts);
    ConcatLength(parts[..n]);
    if i < n {
      ConcatAt(parts[..n], i);
      assert Concat(parts)[32 * i..32 * (i + 1)] == Concat(parts[..n])[32 * i..32 * (i + 1)];
    }
  }

  /** The i-th word of a preimage. */
  function WordAt(pre: seq<nat>, i: nat): seq<nat>
    requires 32 * (i + 1) <= |pre|
  {
    pre[32 * i..32 * (i + 1)]
  }

  /** The place of a text or a number among the twelve words, as the verifying contract's
      encoding has them. */
  ghost predicate LaidOut(k: Hash, p: Intent, pre: seq<nat>)
    requires Digestible(p)
  {
    && |pre| == 32 * 12
    && WordAt(pre, 0) == k(p.action.utf8) && WordAt(pre, 1) == k(p.chain.utf8) && WordAt(pre, 2) == k(p.asset.utf8)
    && Value(WordAt(pre, 3), Byte) == p.amount.v
    && WordAt(pre, 4) == k(p.recipient.utf8) && WordAt(pre, 5) == k(p.contract.utf8)
    && WordAt(pre, 6) == k(p.method_.utf8) && Value(WordAt(pre, 7), Byte) == p.nonce.v
    && WordAt(pre, 8) == k(p.agentId.utf8)
    && Value(WordAt(pre, 9), Byte) == p.sessionIssuedAt.v && Value(WordAt(pre, 10), Byte) == p.sessionExpiresAt.v
    && SpellsBytes32(p.sessionId.value)
    && Value(WordAt(pre, 11), Byte) == Value(DigitsSpelt(p.sessionId.value), Hex)
  }

  lemma PreimageLayout(k: Hash, p: Intent)
    requires WordSized(k) && Digestible(p)
    ensures Preimage(k, p).Ok? && LaidOut(k, p, Preimage(k, p).value)
    ensures HashIntentDigest(k, p) == Ok(k(Preimage(k, p).value))
  {
    var h, w := HashedTexts(k, p), PlainWords(p);
    PreimageOfDigestible(k, p);
    InterleavePlaced(h, w);
    TextsAreWords(k, p);
    PlainAreWords(p);
    WordIsBigEndian(p.amount);
    WordIsBigEndian(p.nonce);
    WordIsBigEndian(p.sessionIssuedAt);
    WordIsBigEndian(p.sessionExpiresAt);
    Bytes32Exactly(p.sessionId.value);
  }

  lemma InterleavePlaced(h: seq<seq<nat>>, w: seq<seq<nat>>)
    requires |h| == 7 && |w| == 5 && AllWords(h) && AllWords(w)
    ensures var pre := Concat(Interleave(h, w));
      && |pre| == 32 * 12
      && WordAt(pre, 0) == h[0] && WordAt(pre, 1) == h[1] && WordAt(pre, 2) == h[2] && WordAt(pre, 3) == w[0]
      && WordAt(pre, 4) == h[3] && WordAt(pre, 5) == h[4] && WordAt(pre, 6) == h[5] && WordAt(pre, 7) == w[1]
      && WordAt(pre, 8) == h[6] && WordAt(pre, 9) == w[2] && WordAt(pre, 10) == w[3] && WordAt(pre, 11) == w[4]
  {
    InterleaveWords(h, w);
    WordsPlaced(Interleave(h, w));
  }

  lemma WordsPlaced(words: seq<seq<nat>>)
    requires AllWords(words) && words != []
    ensures |Concat(words)| == 32 * |words|
    ensures forall i | 0 <= i < |words| :: WordAt(Concat(words), i) == words[i]
  {
    ConcatLength(words);
    forall i | 0 <= i < |words| ensures WordAt(Concat(words), i) == words[i] {
      ConcatAt(words, i);
    }
  }

  /** Equal preimages: the same twelve fields, or two texts of one field that collide. */
  lemma PreimageBinds(k: Hash, p: Intent, q: Intent) returns (x: seq<nat>, y: seq<nat>)
    requires WordSized(k) && Digestible(p) && Digestible(q)
    requires Preimage(k, p) == Preimage(k, q)
    ensures SameSignedFields(p, q) || (Collision(k, x, y) && (x, y) in TextPairs(p, q))
  {
    assert HashedTexts(k, p) == HashedTexts(k, q) && PlainWords(p) == PlainWords(q) by {
      PreimageOfDigestible(k, p);
      PreimageOfDigestible(k, q);
      ConcatInjective(Interleave(HashedTexts(k, p), PlainWords(p)), Interleave(HashedTexts(k, q), PlainWords(q)));
      InterleaveInjective(HashedTexts(k, p), PlainWords(p), HashedTexts(k, q), PlainWords(q));
    }
    HashesAgree(k, p, q);
    PlainWordsAgree(p, q);
    x, y := FirstDifference(TextPairs(p, q));
    if forall i | 0 <= i < 7 :: TextPairs(p, q)[i].0 == TextPairs(p, q)[i].1 {
      TextsAgree(p, q);
    }
  }

  /** A digest signs exactly its twelve fields: two intents share one iff they agree on all
      of them, unless their preimages, or their texts of one field, collide. */
  lemma DigestBinds(k: Hash, p: Intent, q: Intent) returns (x: seq<nat>, y: seq<nat>)
    requires WordSized(k) && Digestible(p) && Digestible(q)
    ensures SameSignedFields(p, q) ==> HashIntentDigest(k, p) == HashIntentDigest(k, q)
    ensures HashIntentDigest(k, p) == HashIntentDigest(k, q) ==>
      SameSignedFields(p, q)
      || (Collision(k, x, y) && ((x, y) in TextPairs(p, q) || (Preimage(k, p) == Ok(x) && Preimage(k, q) == Ok(y))))
  {
    x, y := Preimage(k, p).value, Preimage(k, q).value;
    if x == y {
      x, y := PreimageBinds(k, p, q);
    }
  }
}
