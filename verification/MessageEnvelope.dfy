/**
 Signed message envelopes (packages/agent-sdk/src/message-security.js): the signed text and
 the checks made before replay protection is asked.
 */
module MessageEnvelope {
  import opened Common
  import opened JsonText

  /** A string is signed as it is, any other value as its JSON text. */
  datatype Payload = Plain(s: string) | Value(v: Json)

  /** None is a field of the wrong kind. */
  datatype Envelope = Envelope(
    version: int, sender: string, target: string, payload: Option<Payload>,
    nonce: Option<string>, timestamp: Option<int>, signature: string)

  datatype Refusal =
    | MissingEnvelope | WrongTarget | UnknownIdentity | NoVerifier
    | UnsupportedVersion | MissingField | MissingNonce | MissingTimestamp
    | TimestampExpired | InvalidSignature | ReplayDetected

  /** A service identity and how its signatures are checked. */
  datatype Identity = Unknown | Unverifiable | Known(verify: (string, string) -> bool)

  // ---- The signed text ---------------------------------------------------

  const NEWLINE := "\n"

  /** How integers and values are written. */
  datatype Writer = Writer(number: int -> string, json: Json -> string)

  function PayloadText(p: Payload, w: Writer): string {
    match p case Plain(s) => s case Value(v) => w.json(v)
  }

  function Preimage(e: Envelope, w: Writer): string
    requires e.payload.Some? && e.nonce.Some? && e.timestamp.Some?
  {
    w.number(e.version) + NEWLINE + (e.sender + NEWLINE + (e.target + NEWLINE +
      (PayloadText(e.payload.value, w) + NEWLINE + e.nonce.value + NEWLINE + w.number(e.timestamp.value))))
  }

  predicate OneLine(s: string) {
    '\n' !in s
  }

  /** A line without a break ends at the first one. */
  lemma {:induction false} FirstLine(a: string, s: string, b: string, t: string)
    requires OneLine(a) && OneLine(b) && a + NEWLINE + s == b + NEWLINE + t
    ensures a == b && s == t
    decreases |a|
  {
    var whole, other := a + NEWLINE + s, b + NEWLINE + t;
    if a == [] || b == [] {
      assert whole[0] == other[0];
      assert a == b;
      assert whole[1..] == s && other[1..] == t;
    } else {
      assert whole[0] == a[0] && other[0] == b[0];
      assert whole[1..] == a[1..] + NEWLINE + s && other[1..] == b[1..] + NEWLINE + t;
      FirstLine(a[1..], s, b[1..], t);
      assert a == [a[0]] + a[1..] && b == [b[0]] + b[1..];
    }
  }

  /** A line without a break starts after the last one. */
  lemma {:induction false} LastLine(s: string, a: string, t: string, b: string)
    requires OneLine(a) && OneLine(b) && s + NEWLINE + a == t + NEWLINE + b
    ensures s == t && a == b
    decreases |a|
  {
    var whole, other := s + NEWLINE + a, t + NEWLINE + b;
    var n := |whole| - 1;
    if a == [] || b == [] {
      assert whole[n] == other[n];
      assert a == b;
      assert whole[..n] == s && other[..n] == t;
    } else {
      var x, y := a[..|a| - 1], b[..|b| - 1];
      assert whole[n] == a[|a| - 1] && other[n] == b[|b| - 1];
      assert whole[..n] == s + NEWLINE + x && other[..n] == t + NEWLINE + y;
      LastLine(s, x, t, y);
      assert a == x + [a[|a| - 1]] && b == y + [b[|b| - 1]];
    }
  }

  /** Numerals and JSON texts are lines, and tell what they stand for. */
  ghost predicate IsWriter(w: Writer) {
    && (forall n :: OneLine(w.number(n)))
    && (forall m, n :: w.number(m) == w.number(n) ==> m == n)
    && (forall v :: Clean(v) ==> OneLine(w.json(v)))
    && (forall u, v :: Clean(u) && Clean(v) && w.json(u) == w.json(v) ==> u == v)
  }

  lemma Numerals(w: Writer, m: int, n: int)
    requires IsWriter(w)
    ensures OneLine(w.number(m)) && OneLine(w.number(n)) && (w.number(m) == w.number(n) ==> m == n)
  {
  }

  lemma Values(w: Writer, u: Json, v: Json)
    requires IsWriter(w) && Clean(u) && Clean(v)
    ensures OneLine(w.json(u)) && (w.json(u) == w.json(v) ==> u == v)
  {
  }

  /** The text of a value, unit by unit. */
  function Spell(t: Text, unit: bv16 -> char): string {
    seq(|t|, i requires 0 <= i < |t| => unit(t[i]))
  }

  lemma SpellUnique(t: Text, u: Text, unit: bv16 -> char)
    requires forall x, y :: unit(x) == unit(y) ==> x == y
    requires Spell(t, unit) == Spell(u, unit)
    ensures t == u
  {
    assert |t| == |Spell(t, unit)| == |u|;
    forall i | 0 <= i < |t| ensures t[i] == u[i] {
      assert Spell(t, unit)[i] == Spell(u, unit)[i];
      var x, y := t[i], u[i];
      assert unit(x) == unit(y);
    }
  }

  /** JSON text, unit by unit, is such a writing of values. */
  lemma JsonTextWrites(number: int -> string, unit: bv16 -> char)
    requires (forall n :: OneLine(number(n))) && (forall m, n :: number(m) == number(n) ==> m == n)
    requires (forall x, y :: unit(x) == unit(y) ==> x == y) && unit(LINE_FEED) == '\n'
    ensures IsWriter(Writer(number, v => Spell(TextOf(v), unit)))
  {
    var w := Writer(number, v => Spell(TextOf(v), unit));
    forall v | Clean(v) ensures OneLine(w.json(v)) {
      TextOneLine(v);
      forall i | 0 <= i < |TextOf(v)| ensures w.json(v)[i] != '\n' {
        assert TextOf(v)[i] in TextOf(v);
        var x := TextOf(v)[i];
        assert unit(x) != unit(LINE_FEED);
      }
    }
    forall u, v | Clean(u) && Clean(v) && w.json(u) == w.json(v) ensures u == v {
      SpellUnique(TextOf(u), TextOf(v), unit);
      assert TextOf(u) + [] == TextOf(v) + [];
      TextUnique(u, [], v, []);
    }
  }

  ghost predicate Complete(e: Envelope) {
    && e.payload.Some? && e.nonce.Some? && e.timestamp.Some?
    && (e.payload.value.Value? ==> Clean(e.payload.value.v))
  }

  ghost predicate SingleLines(e: Envelope) {
    Complete(e) && OneLine(e.sender) && OneLine(e.target) && OneLine(e.nonce.value)
  }

  /** One signed text stands for one message, every field but the signature, up to whether the
      payload was a string or a value with that text. The payload may hold line breaks, the
      other fields may not. */
  lemma PreimageBinds(d: Envelope, e: Envelope, w: Writer)
    requires IsWriter(w) && SingleLines(d) && SingleLines(e)
    requires Preimage(d, w) == Preimage(e, w)
    ensures d.(signature := e.signature, payload := e.payload) == e
    ensures PayloadText(d.payload.value, w) == PayloadText(e.payload.value, w)
    ensures (d.payload.value.Plain? <==> e.payload.value.Plain?) ==> d.payload == e.payload
  {
    var dText, eText := PayloadText(d.payload.value, w), PayloadText(e.payload.value, w);
    var dEnd, eEnd := dText + NEWLINE + d.nonce.value, eText + NEWLINE + e.nonce.value;
    var dTime, eTime := w.number(d.timestamp.value), w.number(e.timestamp.value);
    var dTail, eTail := dEnd + NEWLINE + dTime, eEnd + NEWLINE + eTime;
    Numerals(w, d.version, e.version);
    Numerals(w, d.timestamp.value, e.timestamp.value);
    FirstLine(w.number(d.version), d.sender + NEWLINE + (d.target + NEWLINE + dTail),
              w.number(e.version), e.sender + NEWLINE + (e.target + NEWLINE + eTail));
    FirstLine(d.sender, d.target + NEWLINE + dTail, e.sender, e.target + NEWLINE + eTail);
    FirstLine(d.target, dTail, e.target, eTail);
    LastLine(dEnd, dTime, eEnd, eTime);
    LastLine(dText, d.nonce.value, eText, e.nonce.value);
    SamePayload(d.payload.value, e.payload.value, w);
  }

  lemma SamePayload(p: Payload, q: Payload, w: Writer)
    requires IsWriter(w) && PayloadText(p, w) == PayloadText(q, w)
    requires (p.Value? ==> Clean(p.v)) && (q.Value? ==> Clean(q.v))
    ensures (p.Plain? <==> q.Plain?) ==> p == q
  {
    if p.Value? && q.Value? {
      Values(w, p.v, q.v);
    }
  }

  // ---- When a signed text stands for two messages ------------------------

  /** Another message, in more than its signature, under the same signed text. */
  ghost predicate SharesText(d: Envelope, e: Envelope, w: Writer)
    requires Complete(d)
  {
    Complete(e) && Preimage(d, w) == Preimage(e, w) && d.(signature := e.signature) != e
  }

  predicate HasBreak(e: Envelope, w: Writer)
    requires e.payload.Some? && e.nonce.Some?
  {
    !OneLine(e.sender) || !OneLine(e.target) || !OneLine(PayloadText(e.payload.value, w)) || !OneLine(e.nonce.value)
  }

  /** A string that a value's text could be. */
  ghost predicate IsJsonText(s: string, w: Writer) {
    exists v :: Clean(v) && w.json(v) == s
  }

  /** The payload could have been sent as the other kind. */
  ghost predicate EitherKind(p: Payload, w: Writer) {
    p.Value? || IsJsonText(p.s, w)
  }

  function Breaks(s: string): nat {
    if s == [] then 0 else Breaks(s[..|s| - 1]) + if s[|s| - 1] == '\n' then 1 else 0
  }

  lemma {:induction false} BreaksConcat(a: string, b: string)
    ensures Breaks(a + b) == Breaks(a) + Breaks(b)
    decreases |b|
  {
    if b == [] {
      assert a + b == a;
    } else {
      assert (a + b)[..|a + b| - 1] == a + b[..|b| - 1];
      BreaksConcat(a, b[..|b| - 1]);
    }
  }

  lemma {:induction false} NoBreaks(s: string)
    ensures Breaks(s) == 0 <==> OneLine(s)
    decreases |s|
  {
    if s != [] {
      NoBreaks(s[..|s| - 1]);
      assert s == s[..|s| - 1] + [s[|s| - 1]];
    }
  }

  lemma BreaksBetween(a: string, b: string)
    ensures Breaks(a + NEWLINE + b) == Breaks(a) + 1 + Breaks(b)
  {
    BreaksConcat(a, NEWLINE);
    BreaksConcat(a + NEWLINE, b);
    assert NEWLINE[..0] == [] && Breaks(NEWLINE) == 1;
  }

  /** Five breaks separate the fields; the rest are in them. */
  lemma PreimageBreaks(e: Envelope, w: Writer)
    requires IsWriter(w) && Complete(e)
    ensures Breaks(Preimage(e, w))
         == 5 + Breaks(e.sender) + Breaks(e.target) + Breaks(PayloadText(e.payload.value, w)) + Breaks(e.nonce.value)
  {
    var time, text := w.number(e.timestamp.value), PayloadText(e.payload.value, w);
    var body := text + NEWLINE + e.nonce.value;
    Numerals(w, e.version, e.timestamp.value);
    NoBreaks(w.number(e.version));
    NoBreaks(time);
    BreaksBetween(text, e.nonce.value);
    BreaksBetween(body, time);
    BreaksBetween(e.target, body + NEWLINE + time);
    BreaksBetween(e.sender, e.target + NEWLINE + (body + NEWLINE + time));
    BreaksBetween(w.number(e.version), e.sender + NEWLINE + (e.target + NEWLINE + (body + NEWLINE + time)));
  }

  lemma SplitAtBreak(s: string) returns (x: string, y: string)
    requires !OneLine(s)
    ensures s == x + NEWLINE + y && |x| < |s| && |y| < |s|
  {
    var i :| 0 <= i < |s| && s[i] == '\n';
    x, y := s[..i], s[i + 1..];
  }

  /** A break lets a boundary move: into the next field, or from the nonce into the payload. */
  lemma MovedBoundary(d: Envelope, w: Writer) returns (e: Envelope)
    requires IsWriter(w) && Complete(d) && HasBreak(d, w)
    ensures SharesText(d, e, w)
  {
    var text := PayloadText(d.payload.value, w);
    if !OneLine(d.sender) {
      var x, y := SplitAtBreak(d.sender);
      e := d.(sender := x, target := y + NEWLINE + d.target);
      SenderMoved(d, e, w, x, y);
    } else if !OneLine(d.target) {
      var x, y := SplitAtBreak(d.target);
      e := d.(target := x, payload := Some(Plain(y + NEWLINE + text)));
      TargetMoved(d, e, w, x, y);
    } else if !OneLine(text) {
      var x, y := SplitAtBreak(text);
      e := d.(payload := Some(Plain(x)), nonce := Some(y + NEWLINE + d.nonce.value));
      assert text + NEWLINE + d.nonce.value == x + NEWLINE + (y + NEWLINE + d.nonce.value);
    } else {
      var x, y := SplitAtBreak(d.nonce.value);
      e := d.(payload := Some(Plain(text + NEWLINE + x)), nonce := Some(y));
      assert text + NEWLINE + (x + NEWLINE + y) == text + NEWLINE + x + NEWLINE + y;
    }
  }

  lemma SenderMoved(d: Envelope, e: Envelope, w: Writer, x: string, y: string)
    requires Complete(d) && d.sender == x + NEWLINE + y && e == d.(sender := x, target := y + NEWLINE + d.target)
    ensures Preimage(e, w) == Preimage(d, w)
  {
    var tail := PayloadText(d.payload.value, w) + NEWLINE + d.nonce.value + NEWLINE + w.number(d.timestamp.value);
    assert x + NEWLINE + y + NEWLINE + (d.target + NEWLINE + tail)
        == x + NEWLINE + (y + NEWLINE + d.target + NEWLINE + tail);
  }

  lemma TargetMoved(d: Envelope, e: Envelope, w: Writer, x: string, y: string)
    requires Complete(d) && d.target == x + NEWLINE + y
    requires e == d.(target := x, payload := Some(Plain(y + NEWLINE + PayloadText(d.payload.value, w))))
    ensures Preimage(e, w) == Preimage(d, w)
  {
    var text, time := PayloadText(d.payload.value, w), w.number(d.timestamp.value);
    assert d.target + NEWLINE + (text + NEWLINE + d.nonce.value + NEWLINE + time)
        == x + NEWLINE + (y + NEWLINE + text + NEWLINE + d.nonce.value + NEWLINE + time);
  }

  lemma OtherKind(d: Envelope, w: Writer) returns (e: Envelope)
    requires Complete(d) && EitherKind(d.payload.value, w)
    ensures SharesText(d, e, w)
  {
    if d.payload.value.Value? {
      e := d.(payload := Some(Plain(w.json(d.payload.value.v))));
    } else {
      var v :| Clean(v) && w.json(v) == d.payload.value.s;
      e := d.(payload := Some(Value(v)));
    }
  }

  /** A signed text stands for another message too exactly when a line break occurs in the
      sender, target, payload or nonce, or the payload is a value, or a string that is the
      JSON text of one. */
  lemma SharesTextExactly(d: Envelope, w: Writer)
    requires IsWriter(w) && Complete(d)
    ensures (exists e :: SharesText(d, e, w)) <==> HasBreak(d, w) || EitherKind(d.payload.value, w)
  {
    if HasBreak(d, w) {
      var e := MovedBoundary(d, w);
    } else if EitherKind(d.payload.value, w) {
      var e := OtherKind(d, w);
    } else {
      forall e ensures !SharesText(d, e, w) {
        if Complete(e) && Preimage(d, w) == Preimage(e, w) {
          SameTextSameMessage(d, e, w);
        }
      }
    }
  }

  lemma SameTextSameMessage(d: Envelope, e: Envelope, w: Writer)
    requires IsWriter(w) && Complete(d) && Complete(e) && !HasBreak(d, w) && !EitherKind(d.payload.value, w)
    requires Preimage(d, w) == Preimage(e, w)
    ensures d.(signature := e.signature) == e
  {
    PreimageBreaks(d, w);
    PreimageBreaks(e, w);
    NoBreaks(d.sender);
    NoBreaks(d.target);
    NoBreaks(PayloadText(d.payload.value, w));
    NoBreaks(d.nonce.value);
    NoBreaks(e.sender);
    NoBreaks(e.target);
    NoBreaks(e.nonce.value);
    PreimageBinds(d, e, w);
  }

  // ---- The checks --------------------------------------------------------

  function Abs(x: int): nat {
    if x < 0 then -x else x
  }

  /** The first check that fails, in the order made. */
  function CheckEnvelope(e: Envelope, identity: Identity, maxAgeMs: int, now: int, w: Writer): Option<Refusal> {
    if e.version != 1 then Some(UnsupportedVersion)
    else if e.sender == "" || e.target == "" || e.payload.None? then Some(MissingField)
    else if e.nonce.None? || e.nonce.value == "" then Some(MissingNonce)
    else if e.timestamp.None? then Some(MissingTimestamp)
    else if Abs(now - e.timestamp.value) > maxAgeMs then Some(TimestampExpired)
    else if !identity.Known? then Some(NoVerifier)
    else if !identity.verify(Preimage(e, w), e.signature) then Some(InvalidSignature)
    else None
  }

  /** What the receiving service checks first. */
  function CheckInbound(body: Option<Envelope>, self: string, directory: string -> Identity,
                        maxAgeMs: int, now: int, w: Writer): Option<Refusal> {
    if body.None? then Some(MissingEnvelope)
    else
      var e := body.value;
      if e.target != self then Some(WrongTarget)
      else
        match directory(e.sender)
        case Unknown => Some(UnknownIdentity)
        case Unverifiable => Some(NoVerifier)
        case Known(_) => CheckEnvelope(e, directory(e.sender), maxAgeMs, now, w)
  }

  /** What passing every check means. */
  lemma PassedMeans(body: Option<Envelope>, self: string, directory: string -> Identity,
                    maxAgeMs: int, now: int, w: Writer)
    ensures CheckInbound(body, self, directory, maxAgeMs, now, w).None? <==>
      && body.Some? && body.value.version == 1
      && body.value.target == self != "" && body.value.sender != "" && body.value.payload.Some?
      && body.value.nonce.Some? && body.value.nonce.value != "" && body.value.timestamp.Some?
      && now - maxAgeMs <= body.value.timestamp.value <= now + maxAgeMs
      && directory(body.value.sender).Known?
      && directory(body.value.sender).verify(Preimage(body.value, w), body.value.signature)
  {
  }

  /** The check that a refusal names. */
  ghost predicate Fails(e: Envelope, self: string, identity: Identity, maxAgeMs: int, now: int, w: Writer,
                        refusal: Refusal) {
    || (refusal.WrongTarget? && e.target != self)
    || (refusal.UnknownIdentity? && identity == Unknown)
    || (refusal.NoVerifier? && identity == Unverifiable)
    || (refusal.UnsupportedVersion? && e.version != 1)
    || (refusal.MissingField? && (e.sender == "" || e.target == "" || e.payload == None))
    || (refusal.MissingNonce? && (e.nonce == None || e.nonce.value == ""))
    || (refusal.MissingTimestamp? && e.timestamp == None)
    || (refusal.TimestampExpired? && e.timestamp.Some?
        && (e.timestamp.value < now - maxAgeMs || e.timestamp.value > now + maxAgeMs))
    || (refusal.InvalidSignature? && e.payload.Some? && e.nonce.Some? && e.timestamp.Some? && identity.Known?
        && !identity.verify(Preimage(e, w), e.signature))
  }

  lemma RefusalIsTrue(body: Option<Envelope>, self: string, directory: string -> Identity,
                      maxAgeMs: int, now: int, w: Writer)
    requires CheckInbound(body, self, directory, maxAgeMs, now, w).Some?
    ensures var refusal := CheckInbound(body, self, directory, maxAgeMs, now, w).value;
      if body.None? then refusal == MissingEnvelope
      else Fails(body.value, self, directory(body.value.sender), maxAgeMs, now, w, refusal)
  {
  }
}
