/**
 The audit hash chain as two programs check it: volume by volume for the collector
 (mcp-server/src/audit-log.js, mcp-server/src/audit-collector.js), and replayed as one trail
 for anchoring (mcp-server/src/audit-anchor.js). The hash is an arbitrary function.
 */
module AuditChain {
  import opened Common
  import opened JsonText
  import opened CanonicalJson

  const PREV_KEY: Text := [112, 114, 101, 118, 72, 97, 115, 104]

  type Hash = Text -> Text

  /** A line of a volume that holds more than blanks: not JSON, or a value. */
  datatype Line = Junk | Parsed(rec: Json)

  type Volume = seq<Line>

  datatype Fault = BadJson | PrevMismatch | Tampered | Absent

  // ---- Records -----------------------------------------------------------

  function AuditHash(h: Hash, rec: Json): Text {
    h(Canon(rec, AUDIT))
  }

  predicate Sealed(h: Hash, rec: Json) {
    Field(rec, HASH_KEY) == JStr(AuditHash(h, rec))
  }

  /** Two records that serialise differently and hash alike. */
  ghost predicate Collide(h: Hash, x: Json, y: Json) {
    Canon(x, AUDIT) != Canon(y, AUDIT) && AuditHash(h, x) == AuditHash(h, y)
  }

  // ---- One volume --------------------------------------------------------

  /** What the first record must point to: anything, or this. */
  datatype Anchor = Any | From(prev: Json)

  datatype Report = Intact(verified: nat, tail: Json) | Broken(at: nat, fault: Fault) | Threw

  /** The check from line i on; Threw is a `null` line, whose fields cannot be read. */
  function VerifyFrom(h: Hash, lines: Volume, i: nat, prev: Anchor): Report
    requires i <= |lines|
    decreases |lines| - i
  {
    if i == |lines| then Intact(i, if prev.Any? then JUndef else prev.prev)
    else if lines[i].Junk? then Broken(i, BadJson)
    else
      var rec := lines[i].rec;
      if rec.JNull? then Threw
      else if prev.From? && Field(rec, PREV_KEY) != prev.prev then Broken(i, PrevMismatch)
      else if !Sealed(h, rec) then Broken(i, Tampered)
      else VerifyFrom(h, lines, i + 1, From(Field(rec, HASH_KEY)))
  }

  method VerifyAuditHashChain(h: Hash, lines: Volume, anchor: Anchor) returns (report: Report)
    ensures report == VerifyFrom(h, lines, 0, anchor)
  {
    var prev := anchor;
    for i := 0 to |lines|
      invariant VerifyFrom(h, lines, 0, anchor) == VerifyFrom(h, lines, i, prev)
    {
      if lines[i].Junk? {
        return Broken(i, BadJson);
      }
      var rec := lines[i].rec;
      if rec.JNull? {
        return Threw;
      }
      if prev.From? && Field(rec, PREV_KEY) != prev.prev {
        return Broken(i, PrevMismatch);
      }
      if Field(rec, HASH_KEY) != JStr(AuditHash(h, rec)) {
        return Broken(i, Tampered);
      }
      prev := From(Field(rec, HASH_KEY));
    }
    report := Intact(|lines|, if prev.Any? then JUndef else prev.prev);
  }

  // ---- The collector -----------------------------------------------------

  /** `volumes` is how many files there are to check; verified and tail are of both. */
  datatype Status = Status(volumes: nat, verified: nat, chainOk: bool, tail: Json) | StatusThrew

  function VerifyFile(h: Hash, file: Option<Volume>, anchor: Anchor): Report {
    match file
    case None => Broken(0, Absent)
    case Some(lines) => VerifyFrom(h, lines, 0, anchor)
  }

  function StatusOf(report: Report, volumes: nat, before: nat): Status {
    match report
    case Intact(n, tail) => Status(volumes, before + n, true, tail)
    case Broken(n, _) => Status(volumes, before + n, false, JNull)
    case Threw => StatusThrew
  }

  /** An undefined anchor is no anchor: the first record must then point to null. */
  function OrNull(tail: Json): Anchor {
    From(if tail.JUndef? then JNull else tail)
  }

  /** `older` is volume .1. */
  function AuditFileStatus(h: Hash, older: Option<Volume>, current: Option<Volume>): Status {
    var alone := VerifyFile(h, current, From(JNull));
    if alone.Threw? then StatusThrew
    else if older.None? then StatusOf(alone, 1, 0)
    else
      var first := VerifyFile(h, older, Any);
      if !first.Intact? then StatusOf(first, 2, 0)
      else StatusOf(VerifyFile(h, current, OrNull(first.tail)), 2, first.verified)
  }

  // ---- The replay --------------------------------------------------------

  datatype Verdict = Complete | NoFile | Stopped(volume: nat, at: nat, fault: Fault) | ReplayThrew

  datatype Trail = Trail(verdict: Verdict, hashes: seq<Text>)

  datatype LineVerdict = Good | Bad(fault: Fault) | Throws

  /** One line, given the running hashes before it; only the first of all may point anywhere. */
  function JudgeLine(h: Hash, line: Line, hashes: seq<Text>): LineVerdict {
    if line.Junk? then Bad(BadJson)
    else if line.rec.JNull? then Throws
    else if !Sealed(h, line.rec) then Bad(Tampered)
    else if hashes != [] && Field(line.rec, PREV_KEY) != JStr(hashes[|hashes| - 1]) then Bad(PrevMismatch)
    else Good
  }

  /** The replay of the lines of all volumes from line i on, without where it stopped. */
  function ReplayFrom(h: Hash, lines: Volume, i: nat, hashes: seq<Text>): (seq<Text>, Option<Fault>, bool)
    requires i <= |lines|
    decreases |lines| - i
  {
    if i == |lines| then (hashes, None, false)
    else
      match JudgeLine(h, lines[i], hashes)
      case Bad(fault) => (hashes, Some(fault), false)
      case Throws => (hashes, None, true)
      case Good => ReplayFrom(h, lines, i + 1, hashes + [AuditHash(h, lines[i].rec)])
  }

  function Lines(older: Option<Volume>, current: Option<Volume>): Volume {
    older.GetOr([]) + current.GetOr([])
  }

  /** What a trail must say about a replay; `before` is how many lines precede volume 1. */
  ghost predicate Tells(trail: Trail, replay: (seq<Text>, Option<Fault>, bool), before: nat) {
    var (hashes, fault, threw) := replay;
    && trail.hashes == hashes
    && match trail.verdict
       case Complete => fault.None? && !threw
       case Stopped(volume, at, f) => fault == Some(f) && !threw && |hashes| == at + (if volume == 1 then before else 0)
       case ReplayThrew => threw
       case NoFile => false
  }

  method ReplayAuditTrail(h: Hash, older: Option<Volume>, current: Option<Volume>) returns (trail: Trail)
    ensures older.None? && current.None? <==> trail.verdict == NoFile
    ensures older.Some? || current.Some? ==>
      Tells(trail, ReplayFrom(h, Lines(older, current), 0, []), |older.GetOr([])|)
  {
    ReplayJoins(h, older.GetOr([]), current.GetOr([]), 0, []);
    if older.None? && current.None? {
      return Trail(NoFile, []);
    }
    var hashes: seq<Text> := [];
    for v := 0 to 2
      invariant v == 0 ==> hashes == []
      invariant v == 1 ==>
          ReplayFrom(h, older.GetOr([]), 0, []) == (hashes, None, false) && |hashes| == |older.GetOr([])|
      invariant v == 2 ==> ReplayFrom(h, Lines(older, current), 0, []) == (hashes, None, false)
    {
      var lines := if v == 0 then older.GetOr([]) else current.GetOr([]);
      ghost var before := hashes;
      for i := 0 to |lines|
        invariant |hashes| == |before| + i
        invariant ReplayFrom(h, lines, i, hashes) == ReplayFrom(h, lines, 0, before)
      {
        match JudgeLine(h, lines[i], hashes)
        case Bad(fault) => return Trail(Stopped(v, i, fault), hashes);
        case Throws => return Trail(ReplayThrew, hashes);
        case Good => hashes := hashes + [AuditHash(h, lines[i].rec)];
      }
    }
    trail := Trail(Complete, hashes);
  }

  /** Replaying two volumes is replaying the second from where the first ends. */
  lemma {:induction false} ReplayJoins(h: Hash, a: Volume, b: Volume, i: nat, hashes: seq<Text>)
    requires i <= |a|
    ensures var (all, fault, threw) := ReplayFrom(h, a, i, hashes);
      ReplayFrom(h, a + b, i, hashes) == if fault.None? && !threw then ReplayFrom(h, b, 0, all) else (all, fault, threw)
    decreases |a| - i
  {
    if i < |a| {
      assert (a + b)[i] == a[i];
      if JudgeLine(h, a[i], hashes).Good? {
        ReplayJoins(h, a, b, i + 1, hashes + [AuditHash(h, a[i].rec)]);
      }
    } else {
      ReplaySuffix(h, a, b, 0, hashes);
    }
  }

  lemma {:induction false} ReplaySuffix(h: Hash, a: Volume, b: Volume, i: nat, hashes: seq<Text>)
    requires i <= |b|
    ensures ReplayFrom(h, a + b, |a| + i, hashes) == ReplayFrom(h, b, i, hashes)
    decreases |b| - i
  {
    if i < |b| {
      assert (a + b)[|a| + i] == b[i];
      if JudgeLine(h, b[i], hashes).Good? {
        ReplaySuffix(h, a, b, i + 1, hashes + [AuditHash(h, b[i].rec)]);
      }
    }
  }

  // ---- What both check ---------------------------------------------------

  /** Every line a sealed record that points to the one before it. */
  ghost predicate Linked(h: Hash, lines: Volume) {
    && (forall i | 0 <= i < |lines| :: lines[i].Parsed? && Sealed(h, lines[i].rec) && !lines[i].rec.JNull?)
    && (forall i | 0 < i < |lines| :: Field(lines[i].rec, PREV_KEY) == Field(lines[i - 1].rec, HASH_KEY))
  }

  ghost predicate Starts(lines: Volume, anchor: Anchor) {
    lines != [] && anchor.From? ==> lines[0].Parsed? && Field(lines[0].rec, PREV_KEY) == anchor.prev
  }

  /** The last record's hash, or what an empty volume's report gives instead. */
  function TailOf(lines: Volume, anchor: Anchor): Json {
    if lines == [] then (if anchor.Any? then JUndef else anchor.prev)
    else if Last(lines).Parsed? then Field(Last(lines).rec, HASH_KEY) else JUndef
  }

  function Last(lines: Volume): Line
    requires lines != []
  {
    lines[|lines| - 1]
  }

  /** The lines from i on are linked exactly when line i is a sealed record that the next
      points to, and the rest are linked. */
  lemma LinkedFrom(h: Hash, lines: Volume, i: nat)
    requires i < |lines|
    ensures lines[i..] != [] && lines[i..][0] == lines[i]
    ensures Linked(h, lines[i..]) <==>
      && lines[i].Parsed? && !lines[i].rec.JNull? && Sealed(h, lines[i].rec)
      && Linked(h, lines[i + 1..]) && Starts(lines[i + 1..], From(Field(lines[i].rec, HASH_KEY)))
  {
    assert lines[i..] == [lines[i]] + lines[i + 1..];
    if lines[i].Parsed? && !lines[i].rec.JNull? && Sealed(h, lines[i].rec) {
      LinkedCons(h, lines[i], lines[i + 1..]);
    } else {
      assert lines[i..][0] == lines[i];
    }
  }

  lemma TailFrom(lines: Volume, i: nat, prev: Anchor)
    requires i < |lines| && lines[i].Parsed?
    ensures TailOf(lines[i..], prev) == TailOf(lines[i + 1..], From(Field(lines[i].rec, HASH_KEY)))
  {
    assert i + 1 < |lines| ==> Last(lines[i..]) == Last(lines[i + 1..]);
  }

  lemma {:induction false} VerifyExactly(h: Hash, lines: Volume, i: nat, prev: Anchor)
    requires i <= |lines|
    ensures var report := VerifyFrom(h, lines, i, prev);
      && (report.Intact? <==> Linked(h, lines[i..]) && Starts(lines[i..], prev))
      && (report.Intact? ==> report == Intact(|lines|, TailOf(lines[i..], prev)))
      && (report.Broken? ==> i <= report.at < |lines|)
    decreases |lines| - i
  {
    if i < |lines| {
      LinkedFrom(h, lines, i);
      if lines[i].Parsed? {
        VerifyExactly(h, lines, i + 1, From(Field(lines[i].rec, HASH_KEY)));
        TailFrom(lines, i, prev);
      }
    }
  }

  /** What is wrong with a line behind a tail. */
  ghost predicate IsAtFault(h: Hash, line: Line, tail: Json, fault: Fault) {
    match fault
    case BadJson => line.Junk?
    case PrevMismatch => line.Parsed? && line.rec != JNull && Field(line.rec, PREV_KEY) != tail
    case Tampered => line.Parsed? && line.rec != JNull && !Sealed(h, line.rec)
    case Absent => false
  }

  /** A broken volume is linked up to the line named, which is at fault as reported. */
  lemma {:induction false} BrokenIsTrue(h: Hash, lines: Volume, i: nat, prev: Anchor)
    requires i <= |lines| && VerifyFrom(h, lines, i, prev).Broken?
    ensures var at, fault := VerifyFrom(h, lines, i, prev).at, VerifyFrom(h, lines, i, prev).fault;
      && i <= at < |lines| && Linked(h, lines[i..at]) && Starts(lines[i..at], prev)
      && IsAtFault(h, lines[at], TailOf(lines[i..at], prev), fault)
    decreases |lines| - i
  {
    var report := VerifyFrom(h, lines, i, prev);
    VerifyExactly(h, lines, i, prev);
    if report.at == i {
      assert lines[i..i] == [];
      BrokenFirst(h, lines, i, prev);
    } else {
      BrokenLater(h, lines, i, prev);
      BrokenIsTrue(h, lines, i + 1, From(Field(lines[i].rec, HASH_KEY)));
      assert lines[i..report.at] == [lines[i]] + lines[i + 1..report.at];
      LinkedCons(h, lines[i], lines[i + 1..report.at]);
      TailCons(lines[i], lines[i + 1..report.at], prev);
    }
  }

  /** A check that throws has come, over linked lines, to one that is null. */
  lemma {:induction false} ThrewIsTrue(h: Hash, lines: Volume, i: nat, prev: Anchor) returns (at: nat)
    requires i <= |lines| && VerifyFrom(h, lines, i, prev).Threw?
    ensures i <= at < |lines| && Linked(h, lines[i..at]) && Starts(lines[i..at], prev) && lines[at] == Parsed(JNull)
    decreases |lines| - i
  {
    at := i;
    assert lines[i..i] == [];
    if lines[i] != Parsed(JNull) {
      at := ThrewIsTrue(h, lines, i + 1, From(Field(lines[i].rec, HASH_KEY)));
      assert lines[i..at] == [lines[i]] + lines[i + 1..at];
      LinkedCons(h, lines[i], lines[i + 1..at]);
    }
  }

  lemma BrokenFirst(h: Hash, lines: Volume, i: nat, prev: Anchor)
    requires i <= |lines| && VerifyFrom(h, lines, i, prev).Broken? && VerifyFrom(h, lines, i, prev).at == i
    ensures i < |lines| && IsAtFault(h, lines[i], TailOf([], prev), VerifyFrom(h, lines, i, prev).fault)
  {
    if i < |lines| && lines[i].Parsed? {
      VerifyExactly(h, lines, i + 1, From(Field(lines[i].rec, HASH_KEY)));
    }
  }

  lemma BrokenLater(h: Hash, lines: Volume, i: nat, prev: Anchor)
    requires i < |lines| && VerifyFrom(h, lines, i, prev).Broken? && VerifyFrom(h, lines, i, prev).at > i
    ensures lines[i].Parsed? && !lines[i].rec.JNull? && Sealed(h, lines[i].rec)
    ensures prev.From? ==> Field(lines[i].rec, PREV_KEY) == prev.prev
    ensures VerifyFrom(h, lines, i, prev) == VerifyFrom(h, lines, i + 1, From(Field(lines[i].rec, HASH_KEY)))
  {
  }

  lemma TailCons(first: Line, rest: Volume, prev: Anchor)
    requires first.Parsed?
    ensures TailOf([first] + rest, prev) == TailOf(rest, From(Field(first.rec, HASH_KEY)))
  {
    assert rest != [] ==> Last([first] + rest) == Last(rest);
  }

  lemma LinkedCons(h: Hash, first: Line, rest: Volume)
    requires first.Parsed? && !first.rec.JNull? && Sealed(h, first.rec)
    ensures Linked(h, [first] + rest) <==> Linked(h, rest) && Starts(rest, From(Field(first.rec, HASH_KEY)))
  {
    var all := [first] + rest;
    assert forall i | 0 <= i < |rest| :: all[i + 1] == rest[i];
    if Linked(h, all) {
      forall i | 0 <= i < |rest| ensures rest[i].Parsed? && Sealed(h, rest[i].rec) && !rest[i].rec.JNull? {
        assert all[i + 1] == rest[i];
      }
      forall i | 0 < i < |rest| ensures Field(rest[i].rec, PREV_KEY) == Field(rest[i - 1].rec, HASH_KEY) {
        assert all[i + 1] == rest[i] && all[i] == rest[i - 1];
      }
      assert all[0] == first;
      if rest != [] {
        assert all[1] == rest[0] && Field(all[1].rec, PREV_KEY) == Field(all[0].rec, HASH_KEY);
      }
    }
    if Linked(h, rest) && Starts(rest, From(Field(first.rec, HASH_KEY))) {
      forall i | 0 <= i < |all| ensures all[i].Parsed? && Sealed(h, all[i].rec) && !all[i].rec.JNull? {
        assert i > 0 ==> all[i] == rest[i - 1];
      }
      forall i | 0 < i < |all| ensures Field(all[i].rec, PREV_KEY) == Field(all[i - 1].rec, HASH_KEY) {
        assert all[i] == rest[i - 1];
        assert i > 1 ==> all[i - 1] == rest[i - 2];
      }
    }
  }

  function HashOf(h: Hash, line: Line): Text {
    if line.Parsed? then AuditHash(h, line.rec) else []
  }

  /** The running hashes of a trail, record by record. */
  function HashesOf(h: Hash, lines: Volume): seq<Text> {
    seq(|lines|, i requires 0 <= i < |lines| => HashOf(h, lines[i]))
  }

  /** A line is accepted exactly when it extends the linked lines before it. */
  lemma GoodExtends(h: Hash, lines: Volume, i: nat)
    requires i < |lines| && Linked(h, lines[..i])
    ensures JudgeLine(h, lines[i], HashesOf(h, lines[..i])).Good? <==> Linked(h, lines[..i + 1])
    ensures Linked(h, lines[..i + 1]) ==>
      HashesOf(h, lines[..i + 1]) == HashesOf(h, lines[..i]) + [AuditHash(h, lines[i].rec)]
  {
    LinkedSnoc(h, lines[..i], lines[i]);
    assert lines[..i + 1] == lines[..i] + [lines[i]];
  }

  lemma {:induction false} ReplayExactly(h: Hash, lines: Volume, i: nat)
    requires i <= |lines| && Linked(h, lines[..i])
    ensures var (hashes, fault, threw) := ReplayFrom(h, lines, i, HashesOf(h, lines[..i]));
      && (fault.None? && !threw <==> Linked(h, lines))
      && (fault.None? && !threw ==> hashes == HashesOf(h, lines))
    decreases |lines| - i
  {
    if i == |lines| {
      assert lines[..i] == lines;
    } else {
      GoodExtends(h, lines, i);
      LinkedPrefix(h, lines, i + 1);
      if Linked(h, lines[..i + 1]) {
        ReplayExactly(h, lines, i + 1);
      }
    }
  }

  /** The lines before are linked, these are their hashes, and the next line is at fault. */
  ghost predicate StopsAt(h: Hash, lines: Volume, hashes: seq<Text>, fault: Fault) {
    var n := |hashes|;
    && n < |lines| && Linked(h, lines[..n]) && hashes == HashesOf(h, lines[..n])
    && IsAtFault(h, lines[n], if hashes == [] then JUndef else JStr(hashes[n - 1]), fault)
    && (fault == PrevMismatch ==> n > 0)
  }

  lemma JudgedBad(h: Hash, lines: Volume, i: nat)
    requires i < |lines| && Linked(h, lines[..i]) && JudgeLine(h, lines[i], HashesOf(h, lines[..i])).Bad?
    ensures StopsAt(h, lines, HashesOf(h, lines[..i]), JudgeLine(h, lines[i], HashesOf(h, lines[..i])).fault)
  {
  }

  /** A replay that stops says truly where and why. */
  lemma {:induction false} ReplayStopIsTrue(h: Hash, lines: Volume, i: nat)
    requires i <= |lines| && Linked(h, lines[..i])
    ensures var (hashes, fault, _) := ReplayFrom(h, lines, i, HashesOf(h, lines[..i]));
      && (fault.Some? ==> StopsAt(h, lines, hashes, fault.value))
    ensures var (hashes, _, threw) := ReplayFrom(h, lines, i, HashesOf(h, lines[..i]));
      threw ==> |hashes| < |lines| && Linked(h, lines[..|hashes|]) && lines[|hashes|] == Parsed(JNull)
    decreases |lines| - i
  {
    if i < |lines| {
      var hashes := HashesOf(h, lines[..i]);
      match JudgeLine(h, lines[i], hashes)
      case Bad(_) => JudgedBad(h, lines, i);
      case Throws =>
      case Good =>
        GoodExtends(h, lines, i);
        ReplayStopIsTrue(h, lines, i + 1);
    }
  }

  lemma LinkedSnoc(h: Hash, init: Volume, last: Line)
    requires Linked(h, init)
    ensures Linked(h, init + [last]) <==>
      && last.Parsed? && !last.rec.JNull? && Sealed(h, last.rec)
      && (init != [] ==> Field(last.rec, PREV_KEY) == JStr(HashesOf(h, init)[|init| - 1]))
  {
    var all, n := init + [last], |init|;
    assert all[n] == last && forall i | 0 <= i < n :: all[i] == init[i];
    if init != [] {
      assert Sealed(h, init[n - 1].rec);
      assert all[n - 1] == init[n - 1];
    }
    if last.Parsed? && !last.rec.JNull? && Sealed(h, last.rec)
      && (init != [] ==> Field(last.rec, PREV_KEY) == JStr(HashesOf(h, init)[|init| - 1])) {
      forall i | 0 < i < |all| ensures Field(all[i].rec, PREV_KEY) == Field(all[i - 1].rec, HASH_KEY) {
        assert i < n ==> all[i] == init[i] && all[i - 1] == init[i - 1];
      }
    }
  }

  lemma LinkedPrefix(h: Hash, lines: Volume, n: nat)
    requires n <= |lines|
    ensures Linked(h, lines) ==> Linked(h, lines[..n])
  {
    assert forall i | 0 <= i < n :: lines[..n][i] == lines[i];
  }

  /** Two volumes are linked as one exactly when each is and the second starts where the
      first ends. */
  lemma {:induction false} LinkedConcat(h: Hash, a: Volume, b: Volume)
    ensures Linked(h, a + b) <==>
      Linked(h, a) && Linked(h, b) && (a != [] ==> Starts(b, From(TailOf(a, Any))))
    decreases |a|
  {
    if a == [] {
      assert a + b == b;
    } else {
      var first, rest := a[0], a[1..];
      assert a == [first] + rest && a + b == [first] + (rest + b);
      if first.Parsed? && !first.rec.JNull? && Sealed(h, first.rec) {
        LinkedCons(h, first, rest);
        LinkedCons(h, first, rest + b);
        LinkedConcat(h, rest, b);
        assert rest != [] ==> (rest + b)[0] == rest[0] && Last(a) == Last(rest);
        assert rest == [] ==> rest + b == b;
      } else {
        assert a[0] == first && (a + b)[0] == first;
      }
    }
  }

  // ---- Collector and replay agree ----------------------------------------

  /** What the replay accepts and the collector reports intact are the same trails, except
      that the collector wants the current file to exist, and the first record of a trail
      that no older volume precedes to point to null. */
  lemma CollectorExactly(h: Hash, older: Option<Volume>, current: Option<Volume>)
    ensures var status := AuditFileStatus(h, older, current);
      var lines := Lines(older, current);
      && (status.Status? && status.chainOk <==>
            current.Some? && Linked(h, lines) && (older.GetOr([]) == [] ==> Starts(lines, From(JNull))))
      && (status.Status? && status.chainOk ==>
            status.verified == |lines| && status.tail == TailOf(lines, From(JNull)))
  {
    if current.Some? {
      var cur := current.value;
      assert cur[0..] == cur && [] + cur == cur;
      VerifyExactly(h, cur, 0, From(JNull));
      if older.Some? {
        TwoVolumesExactly(h, older.value, cur);
      }
    }
  }

  lemma TwoVolumesExactly(h: Hash, prior: Volume, cur: Volume)
    ensures var status := AuditFileStatus(h, Some(prior), Some(cur));
      && (status.Status? && status.chainOk <==>
            Linked(h, prior + cur) && (prior == [] ==> Starts(prior + cur, From(JNull))))
      && (status.Status? && status.chainOk ==>
            status.verified == |prior + cur| && status.tail == TailOf(prior + cur, From(JNull)))
  {
    assert cur[0..] == cur && prior[0..] == prior;
    VerifyExactly(h, cur, 0, From(JNull));
    VerifyExactly(h, prior, 0, Any);
    LinkedConcat(h, prior, cur);
    if Linked(h, prior) {
      VerifyExactly(h, cur, 0, OrNull(TailOf(prior, Any)));
      if prior == [] {
        assert prior + cur == cur;
      } else {
        TailIsHash(h, prior);
        TwoVolumes(prior, cur);
      }
    }
  }

  lemma TailIsHash(h: Hash, lines: Volume)
    requires Linked(h, lines) && lines != []
    ensures TailOf(lines, Any) == JStr(HashesOf(h, lines)[|lines| - 1])
  {
    assert Sealed(h, Last(lines).rec);
  }

  lemma TwoVolumes(prior: Volume, cur: Volume)
    requires prior != []
    ensures TailOf(prior + cur, From(JNull)) == if cur == [] then TailOf(prior, Any) else TailOf(cur, Any)
  {
    assert Last(prior + cur) == if cur == [] then Last(prior) else Last(cur);
  }

  /** A trail the collector reports intact replays completely, with as many records and the
      same tail. */
  lemma CollectorImpliesReplay(h: Hash, older: Option<Volume>, current: Option<Volume>)
    requires var status := AuditFileStatus(h, older, current); status.Status? && status.chainOk
    ensures var status := AuditFileStatus(h, older, current);
      var (hashes, fault, threw) := ReplayFrom(h, Lines(older, current), 0, []);
      && fault.None? && !threw && |hashes| == status.verified
      && status.tail == if hashes == [] then JNull else JStr(hashes[|hashes| - 1])
  {
    var lines := Lines(older, current);
    CollectorExactly(h, older, current);
    ReplayMeansLinked(h, lines);
    if lines != [] {
      TailIsHash(h, lines);
    }
  }

  lemma ReplayMeansLinked(h: Hash, lines: Volume)
    ensures var (hashes, fault, threw) := ReplayFrom(h, lines, 0, []);
      && (fault.None? && !threw <==> Linked(h, lines))
      && (fault.None? && !threw ==> hashes == HashesOf(h, lines))
  {
    assert lines[..0] == [] && HashesOf(h, lines[..0]) == [];
    ReplayExactly(h, lines, 0);
  }

  /** A status that is not intact gives no tail, and counts lines that are linked. */
  lemma NotIntactIsTrue(h: Hash, older: Option<Volume>, current: Option<Volume>)
    ensures var status, lines := AuditFileStatus(h, older, current), Lines(older, current);
      status.Status? && !status.chainOk ==>
        status.tail == JNull && status.verified <= |lines| && Linked(h, lines[..status.verified])
  {
    var cur, prior := current.GetOr([]), older.GetOr([]);
    assert cur[0..] == cur && prior[0..] == prior && [] + cur == cur;
    var first := VerifyFile(h, older, Any);
    if older.None? {
      BrokenCounts(h, current, From(JNull));
    } else if first.Broken? {
      BrokenCounts(h, older, Any);
      assert (prior + cur)[..first.at] == prior[..first.at];
    } else if first.Intact? {
      VerifyExactly(h, prior, 0, Any);
      SecondBroken(h, prior, current);
    }
  }

  lemma BrokenCounts(h: Hash, file: Option<Volume>, anchor: Anchor)
    ensures var report, lines := VerifyFile(h, file, anchor), file.GetOr([]);
      report.Broken? ==>
        report.at <= |lines| && Linked(h, lines[..report.at]) && Starts(lines[..report.at], anchor)
  {
    if file.Some? && VerifyFile(h, file, anchor).Broken? {
      BrokenIsTrue(h, file.value, 0, anchor);
      assert file.value[0..VerifyFile(h, file, anchor).at] == file.value[..VerifyFile(h, file, anchor).at];
    }
  }

  lemma SecondBroken(h: Hash, prior: Volume, current: Option<Volume>)
    requires Linked(h, prior)
    ensures var report, cur := VerifyFile(h, current, OrNull(TailOf(prior, Any))), current.GetOr([]);
      report.Broken? ==>
        |prior| + report.at <= |prior + cur| && Linked(h, (prior + cur)[..|prior| + report.at])
  {
    var report, cur := VerifyFile(h, current, OrNull(TailOf(prior, Any))), current.GetOr([]);
    if report.Broken? {
      BrokenCounts(h, current, OrNull(TailOf(prior, Any)));
      assert (prior + cur)[..|prior| + report.at] == prior + cur[..report.at];
      LinkedConcat(h, prior, cur[..report.at]);
      if prior != [] {
        TailIsHash(h, prior);
      }
    }
  }

  /** The check throws exactly when it comes to a null record: in the current volume read on
      its own, in the older one, or in the current one behind it. */
  lemma ThrowsExactly(h: Hash, older: Option<Volume>, current: Option<Volume>)
    ensures var first := VerifyFile(h, older, Any);
      AuditFileStatus(h, older, current).StatusThrew? <==>
        || VerifyFile(h, current, From(JNull)).Threw?
        || (older.Some? && first.Threw?)
        || (older.Some? && first.Intact? && VerifyFile(h, current, OrNull(first.tail)).Threw?)
  {
  }
}
