/**
 The audit log's writer (mcp-server/src/audit-log.js): records are chained, appended to the
 current volume, and the volume is rotated when full; a restart picks the chain up from the
 last line on disk. Every run of it against the collector's check.
 */
module AuditWriter {
  import opened Common
  import opened JsonText
  import opened CanonicalJson
  import opened AuditChain
  import opened AuditAnchors
  import JsonReader

  const TIMESTAMP_KEY: Text := [116, 105, 109, 101, 115, 116, 97, 109, 112]
  const HASH_LENGTH := 64

  // ---- Building a record -------------------------------------------------

  /** An assignment: in place, or last. */
  function Set(members: Members, key: Text, value: Json): Members {
    match members
    case NoMembers => Member(key, value, NoMembers)
    case Member(k, v, rest) => if k == key then Member(k, value, rest) else Member(k, v, Set(rest, key, value))
  }

  function Spread(members: Members, entry: Members): Members
    decreases entry
  {
    match entry
    case NoMembers => members
    case Member(key, value, rest) => Spread(Set(members, key, value), rest)
  }

  /** The record with its link, before its hash. */
  function LinkedMembers(entry: Members, timestamp: Text, last: Json): Members {
    Set(Spread(Member(TIMESTAMP_KEY, JStr(timestamp), NoMembers), entry), PREV_KEY, last)
  }

  function Seal(h: Hash, linked: Members): Json {
    var members := Set(linked, HASH_KEY, JNull);
    JObj(Set(members, HASH_KEY, JStr(AuditHash(h, JObj(members)))))
  }

  function Record(h: Hash, entry: Members, timestamp: Text, last: Json): Json {
    Seal(h, LinkedMembers(entry, timestamp, last))
  }

  // ---- The writer --------------------------------------------------------

  /** `last` and `initialized` are in memory, the volumes on disk. */
  datatype Log = Log(last: Json, initialized: bool, older: Option<Volume>, current: Option<Volume>)

  function Initialize(log: Log): Log {
    if log.initialized then log
    else if log.current.None? || log.current.value == [] || Last(log.current.value).Junk? then log.(initialized := true)
    else
      var hash := Field(Last(log.current.value).rec, HASH_KEY);
      log.(initialized := true, last := if hash.JStr? && |hash.chars| == HASH_LENGTH then hash else log.last)
  }

  function Rotate(log: Log, full: bool): Log {
    if full && log.current.Some? then log.(older := log.current, current := None) else log
  }

  function Append(log: Log, line: Line): Log {
    log.(current := Some(log.current.GetOr([]) + [line]))
  }

  function Written(h: Hash, log: Log, entry: Members, timestamp: Text, full: bool): Log {
    var ready := Initialize(log);
    var rec := Record(h, entry, timestamp, ready.last);
    Append(Rotate(ready.(last := Field(rec, HASH_KEY)), full), Parsed(OnDisk(rec)))
  }

  function Restarted(log: Log): Log {
    log.(last := JNull, initialized := false)
  }

  class AuditLog {
    const h: Hash
    var chainLastHash: Json
    var chainInitialized: bool
    var older: Option<Volume>
    var current: Option<Volume>

    function State(): Log
      reads this
    {
      Log(chainLastHash, chainInitialized, older, current)
    }

    /** A process start, on whatever volumes there are. */
    constructor (h: Hash, older: Option<Volume>, current: Option<Volume>)
      ensures this.h == h && State() == Log(JNull, false, older, current)
    {
      this.h := h;
      chainLastHash := JNull;
      chainInitialized := false;
      this.older := older;
      this.current := current;
    }

    method EnsureChainInitialized()
      modifies this
      ensures State() == Initialize(old(State()))
    {
      if chainInitialized {
        return;
      }
      chainInitialized := true;
      if current.None? || current.value == [] {
        return;
      }
      match Last(current.value)
      case Junk =>
      case Parsed(rec) =>
        var hash := Field(rec, HASH_KEY);
        if hash.JStr? && |hash.chars| == HASH_LENGTH {
          chainLastHash := hash;
        }
    }

    method MaybeRotate(full: bool)
      modifies this
      ensures State() == Rotate(old(State()), full)
    {
      if full && current.Some? {
        older := current;
        current := None;
      }
    }

    /** `full` says whether the current volume has reached the size limit. */
    method RecordAudit(entry: Members, timestamp: Text, full: bool) returns (rec: Json)
      modifies this
      ensures State() == Written(h, old(State()), entry, timestamp, full)
      ensures rec == Record(h, entry, timestamp, Initialize(old(State())).last)
    {
      EnsureChainInitialized();
      rec := Record(h, entry, timestamp, chainLastHash);
      chainLastHash := Field(rec, HASH_KEY);
      MaybeRotate(full);
      current := Some(current.GetOr([]) + [Parsed(OnDisk(rec))]);
    }
  }

  // ---- A record and its hash ---------------------------------------------

  lemma {:induction false} SetFacts(members: Members, key: Text, value: Json, other: Text)
    ensures Lookup(Set(members, key, value), other) == if other == key then value else Lookup(members, other)
    ensures HasKey(Set(members, key, value), other) <==> other == key || HasKey(members, other)
    decreases members
  {
    if members.Member? {
      SetFacts(members.rest, key, value, other);
    }
  }

  lemma {:induction false} SetProper(members: Members, key: Text, value: Json)
    requires ProperMembers(members) && Proper(value)
    ensures ProperMembers(Set(members, key, value))
    decreases members
  {
    if members.Member? && members.key != key {
      SetProper(members.rest, key, value);
      SetFacts(members.rest, key, value, members.key);
    }
  }

  /** The stored hash is no part of what is hashed. */
  lemma {:induction false} SetHash(members: Members, value: Json)
    ensures MapOf(Set(members, HASH_KEY, value), AUDIT) == MapOf(members, AUDIT)
    decreases members
  {
    if members.Member? {
      SetHash(members.rest, value);
    }
  }

  lemma {:induction false} SpreadFacts(members: Members, entry: Members)
    requires ProperMembers(members) && ProperMembers(entry)
    ensures ProperMembers(Spread(members, entry))
    decreases entry
  {
    if entry.Member? {
      SetProper(members, entry.key, entry.value);
      SpreadFacts(Set(members, entry.key, entry.value), entry.rest);
    }
  }

  lemma {:induction false} SpreadHolds(members: Members, entry: Members, k: Text)
    requires ProperMembers(entry)
    ensures HasKey(Spread(members, entry), k) <==> HasKey(entry, k) || HasKey(members, k)
    ensures Lookup(Spread(members, entry), k) == if HasKey(entry, k) then Lookup(entry, k) else Lookup(members, k)
    decreases entry
  {
    if entry.Member? {
      SetFacts(members, entry.key, entry.value, k);
      SpreadHolds(Set(members, entry.key, entry.value), entry.rest, k);
    }
  }

  lemma LinkedFacts(entry: Members, timestamp: Text, last: Json)
    requires ProperMembers(entry) && (last.JNull? || last.JStr?)
    ensures var linked := LinkedMembers(entry, timestamp, last);
      ProperMembers(linked) && Lookup(linked, PREV_KEY) == last
  {
    var base := Member(TIMESTAMP_KEY, JStr(timestamp), NoMembers);
    var spread := Spread(base, entry);
    SpreadFacts(base, entry);
    SetProper(spread, PREV_KEY, last);
    SetFacts(spread, PREV_KEY, last, PREV_KEY);
  }

  /** What a record holds under each key: its seal, its link, the entry's own values, and the
      time unless the entry has one; nothing else. */
  lemma RecordHolds(h: Hash, entry: Members, timestamp: Text, last: Json, k: Text)
    requires ProperMembers(entry) && (last.JNull? || last.JStr?)
    ensures var rec := Record(h, entry, timestamp, last);
      && rec.JObj?
      && (HasKey(rec.members, k) <==> HasKey(entry, k) || k == HASH_KEY || k == PREV_KEY || k == TIMESTAMP_KEY)
      && (HasKey(rec.members, k) ==>
            Lookup(rec.members, k)
            == if k == HASH_KEY then JStr(AuditHash(h, rec))
               else if k == PREV_KEY then last
               else if HasKey(entry, k) then Lookup(entry, k)
               else JStr(timestamp))
  {
    var base := Member(TIMESTAMP_KEY, JStr(timestamp), NoMembers);
    var linked := LinkedMembers(entry, timestamp, last);
    RecordFacts(h, entry, timestamp, last);
    SpreadHolds(base, entry, k);
    SetFacts(Spread(base, entry), PREV_KEY, last, k);
    SetFacts(linked, HASH_KEY, JNull, k);
    var members := Set(linked, HASH_KEY, JNull);
    SetFacts(members, HASH_KEY, JStr(AuditHash(h, JObj(members))), k);
  }

  lemma SealFacts(h: Hash, linked: Members)
    requires ProperMembers(linked)
    ensures var rec := Seal(h, linked);
      && Proper(rec) && Field(rec, PREV_KEY) == Lookup(linked, PREV_KEY)
      && Field(rec, HASH_KEY) == JStr(AuditHash(h, rec))
  {
    var members := Set(linked, HASH_KEY, JNull);
    var seal := JStr(AuditHash(h, JObj(members)));
    KeysDiffer();
    SetProper(linked, HASH_KEY, JNull);
    SetProper(members, HASH_KEY, seal);
    SetFacts(linked, HASH_KEY, JNull, PREV_KEY);
    SetFacts(members, HASH_KEY, seal, PREV_KEY);
    SetFacts(members, HASH_KEY, seal, HASH_KEY);
    SetHash(linked, JNull);
    SetHash(members, seal);
    SameCanon(members, Set(members, HASH_KEY, seal));
  }

  lemma SameCanon(a: Members, b: Members)
    requires ProperMembers(a) && ProperMembers(b) && MapOf(a, AUDIT) == MapOf(b, AUDIT)
    ensures Canon(JObj(a), AUDIT) == Canon(JObj(b), AUDIT)
  {
    CanonInjective(JObj(a), JObj(b), AUDIT);
  }

  lemma RecordFacts(h: Hash, entry: Members, timestamp: Text, last: Json)
    requires ProperMembers(entry) && (last.JNull? || last.JStr?)
    ensures var rec := Record(h, entry, timestamp, last);
      && Proper(rec) && Field(rec, PREV_KEY) == last
      && Field(rec, HASH_KEY) == JStr(AuditHash(h, rec))
  {
    LinkedFacts(entry, timestamp, last);
    SealFacts(h, LinkedMembers(entry, timestamp, last));
  }

  // ---- Entries that survive writing --------------------------------------

  /** Defined, and nothing undefined in it. */
  predicate Defined(v: Json) {
    !v.JUndef? && Whole(v, AUDIT)
  }

  /** No member of the entry is undefined, at any depth, but for those the writer replaces. */
  ghost predicate EntryWhole(entry: Members) {
    forall k | HasKey(entry, k) && k != HASH_KEY && k != PREV_KEY :: Defined(Lookup(entry, k))
  }

  ghost predicate WholeByKey(members: Members) {
    forall k | HasKey(members, k) && k != HASH_KEY :: Defined(Lookup(members, k))
  }

  lemma WholeFirst(members: Members)
    requires members.Member? && ProperMembers(members)
    ensures WholeByKey(members)
        <==> (members.key == HASH_KEY || Defined(members.value)) && WholeByKey(members.rest)
  {
    var head := members.key == HASH_KEY || Defined(members.value);
    if WholeByKey(members) {
      assert HasKey(members, members.key);
      forall k | HasKey(members.rest, k) && k != HASH_KEY ensures Defined(Lookup(members.rest, k)) {
        assert HasKey(members, k);
      }
    }
    if head && WholeByKey(members.rest) {
      forall k | HasKey(members, k) && k != HASH_KEY ensures Defined(Lookup(members, k)) {
        assert k == members.key || HasKey(members.rest, k);
      }
    }
  }

  lemma {:induction false} WholeMeans(members: Members)
    requires ProperMembers(members)
    ensures WholeMembers(members, AUDIT) <==> WholeByKey(members)
    decreases members
  {
    if members.Member? {
      WholeMeans(members.rest);
      WholeFirst(members);
    }
  }

  /** A record is whole exactly when its entry is. */
  lemma RecordWhole(h: Hash, entry: Members, timestamp: Text, last: Json)
    requires ProperMembers(entry) && (last.JNull? || last.JStr?)
    ensures Whole(Record(h, entry, timestamp, last), AUDIT) <==> EntryWhole(entry)
  {
    var rec := Record(h, entry, timestamp, last);
    RecordFacts(h, entry, timestamp, last);
    RecordHolds(h, entry, timestamp, last, PREV_KEY);
    WholeMeans(rec.members);
    if WholeByKey(rec.members) {
      forall k | HasKey(entry, k) && k != HASH_KEY && k != PREV_KEY ensures Defined(Lookup(entry, k)) {
        RecordHolds(h, entry, timestamp, last, k);
      }
    }
    if EntryWhole(entry) {
      forall k | HasKey(rec.members, k) && k != HASH_KEY ensures Defined(Lookup(rec.members, k)) {
        RecordHolds(h, entry, timestamp, last, k);
      }
    }
  }

  lemma {:induction false} LookupOnDisk(members: Members, key: Text)
    requires !HasKey(members, key) || !Lookup(members, key).JUndef?
    requires ProperMembers(members)
    ensures Lookup(MembersOnDisk(members), key) == if HasKey(members, key) then OnDisk(Lookup(members, key)) else JUndef
    decreases members
  {
    if members.Member? {
      if members.key == key {
        return;
      }
      LookupOnDisk(members.rest, key);
    }
  }

  /** A record passes verification when read back exactly when it had no undefined member, or
      its two texts, before and after, happen to hash alike. */
  lemma SealedExactly(h: Hash, entry: Members, timestamp: Text, last: Json)
    requires ProperMembers(entry) && (last.JNull? || last.JStr?)
    ensures var rec := Record(h, entry, timestamp, last);
      && Proper(OnDisk(rec)) && Field(OnDisk(rec), PREV_KEY) == last
      && Field(OnDisk(rec), HASH_KEY) == Field(rec, HASH_KEY)
      && (Sealed(h, OnDisk(rec)) <==> EntryWhole(entry) || Collide(h, OnDisk(rec), rec))
  {
    var rec := Record(h, entry, timestamp, last);
    RecordFacts(h, entry, timestamp, last);
    RecordWhole(h, entry, timestamp, last);
    DiskKeepsCanonExactly(rec, AUDIT);
    HasBoth(rec.members);
    LookupOnDisk(rec.members, PREV_KEY);
    LookupOnDisk(rec.members, HASH_KEY);
  }

  lemma {:induction false} HasBoth(members: Members)
    ensures Lookup(members, PREV_KEY) != JUndef ==> HasKey(members, PREV_KEY)
    ensures Lookup(members, HASH_KEY) != JUndef ==> HasKey(members, HASH_KEY)
    decreases members
  {
    if members.Member? {
      HasBoth(members.rest);
    }
  }

  // ---- Runs --------------------------------------------------------------

  datatype Event = Write(entry: Members, timestamp: Text, full: bool) | Restart

  /** `history` is every line ever appended. */
  datatype Sys = Sys(log: Log, history: Volume)

  /** A process start with no volumes yet. */
  ghost predicate IsStart(sys: Sys) {
    && sys.log.last.JNull? && !sys.log.initialized && sys.log.older.None? && sys.log.current.None?
    && sys.history == []
  }

  function LineOf(h: Hash, log: Log, event: Event): Line
    requires event.Write?
  {
    Parsed(OnDisk(Record(h, event.entry, event.timestamp, Initialize(log).last)))
  }

  function Step(h: Hash, sys: Sys, event: Event): Sys {
    match event
    case Write(entry, timestamp, full) =>
      Sys(Written(h, sys.log, entry, timestamp, full), sys.history + [LineOf(h, sys.log, event)])
    case Restart => sys.(log := Restarted(sys.log))
  }

  function Run(h: Hash, sys: Sys, events: seq<Event>): Sys
    decreases |events|
  {
    if events == [] then sys else Run(h, Step(h, sys, events[0]), events[1..])
  }

  ghost predicate GoodEntry(event: Event) {
    event.Write? ==> ProperMembers(event.entry) && EntryWhole(event.entry)
  }

  ghost predicate AllGood(events: seq<Event>) {
    events == [] || (GoodEntry(events[0]) && AllGood(events[1..]))
  }

  /** The volumes are the end of the history, and all of it while there is no older one. */
  ghost predicate Retained(log: Log, history: Volume) {
    var lines := Lines(log.older, log.current);
    && |lines| <= |history| && history[|history| - |lines|..] == lines
    && (log.older.None? ==> lines == history)
    && (log.older.Some? ==> log.older.value != [] && log.current.Some?)
    && (if log.current.Some? then log.current.value != [] else history == [])
  }

  ghost predicate Chained(h: Hash, log: Log, history: Volume) {
    && Linked(h, history) && Starts(history, From(JNull))
    && log.last == if log.initialized then TailOf(history, From(JNull)) else JNull
  }

  ghost predicate Inv(h: Hash, sys: Sys) {
    Retained(sys.log, sys.history) && Chained(h, sys.log, sys.history)
  }

  lemma TailShape(h: Hash, history: Volume)
    requires IsHexHash(h) && Linked(h, history)
    ensures var tail := TailOf(history, From(JNull));
      tail.JNull? || (tail.JStr? && |tail.chars| == HASH_LENGTH)
    ensures history != [] ==> TailOf(history, From(JNull)) == JStr(HashesOf(h, history)[|history| - 1])
  {
    if history != [] {
      TailIsHash(h, history);
    }
  }

  lemma LastOfLines(log: Log, history: Volume)
    requires Retained(log, history) && log.current.Some?
    ensures history != [] && Last(log.current.value) == Last(history)
  {
    var lines, n := Lines(log.older, log.current), |history|;
    assert Last(lines) == Last(log.current.value);
    assert history[n - |lines|..][|lines| - 1] == history[n - 1];
  }

  /** Whatever happened before, the writer continues from the last record of the history. */
  lemma InitializedTail(h: Hash, sys: Sys)
    requires IsHexHash(h) && Inv(h, sys)
    ensures Initialize(sys.log).last == TailOf(sys.history, From(JNull))
    ensures Initialize(sys.log) == sys.log.(initialized := true, last := TailOf(sys.history, From(JNull)))
  {
    TailShape(h, sys.history);
    if !sys.log.initialized && sys.log.current.Some? {
      LastOfLines(sys.log, sys.history);
    }
  }

  lemma RetainedGrows(log: Log, history: Volume, full: bool, line: Line)
    requires Retained(log, history)
    ensures Retained(Append(Rotate(log, full), line), history + [line])
  {
    var next := Append(Rotate(log, full), line);
    var lines, before := Lines(next.older, next.current), Lines(log.older, log.current);
    var cut := |history| - |before|;
    if full && log.current.Some? {
      assert lines == log.current.value + [line];
      var c := |history| - |log.current.value|;
      assert history[c..] == before[c - cut..] == log.current.value;
      assert (history + [line])[c..] == history[c..] + [line];
    } else {
      assert lines == before + [line];
      assert (history + [line])[cut..] == history[cut..] + [line];
    }
  }

  /** A sealed line that points to the tail extends the chain. */
  lemma LinkGrows(h: Hash, history: Volume, rec: Json, log: Log)
    requires IsHexHash(h) && Linked(h, history) && Starts(history, From(JNull))
    requires rec.JObj? && Sealed(h, rec) && Field(rec, PREV_KEY) == TailOf(history, From(JNull))
    requires log.initialized && log.last == Field(rec, HASH_KEY)
    ensures Chained(h, log, history + [Parsed(rec)])
  {
    var all := history + [Parsed(rec)];
    TailShape(h, history);
    LinkedSnoc(h, history, Parsed(rec));
    assert history != [] ==> all[0] == history[0];
    assert Last(all) == Parsed(rec);
  }

  lemma WrittenLast(h: Hash, log: Log, entry: Members, timestamp: Text, full: bool, last: Json)
    requires Initialize(log).last == last
    ensures var next := Written(h, log, entry, timestamp, full);
      next.initialized && next.last == Field(Record(h, entry, timestamp, last), HASH_KEY)
  {
  }

  lemma RecordIsObject(h: Hash, entry: Members, timestamp: Text, last: Json)
    ensures OnDisk(Record(h, entry, timestamp, last)).JObj?
  {
  }

  /** The line written points to the tail, and the log remembers the line's hash. */
  lemma LinePoints(h: Hash, sys: Sys, event: Event, last: Json)
    requires IsHexHash(h) && Inv(h, sys) && event.Write? && ProperMembers(event.entry)
    requires last == TailOf(sys.history, From(JNull))
    ensures var line, log := LineOf(h, sys.log, event), Step(h, sys, event).log;
      && line.rec.JObj? && Field(line.rec, PREV_KEY) == last
      && log.initialized && log.last == Field(line.rec, HASH_KEY)
  {
    InitializedTail(h, sys);
    TailShape(h, sys.history);
    SealedExactly(h, event.entry, event.timestamp, last);
    RecordIsObject(h, event.entry, event.timestamp, last);
    WrittenLast(h, sys.log, event.entry, event.timestamp, event.full, last);
  }

  lemma ChainGrows(h: Hash, sys: Sys, event: Event)
    requires IsHexHash(h) && Inv(h, sys) && event.Write? && ProperMembers(event.entry)
    requires Sealed(h, LineOf(h, sys.log, event).rec)
    ensures Chained(h, Step(h, sys, event).log, Step(h, sys, event).history)
  {
    var tail := TailOf(sys.history, From(JNull));
    LinePoints(h, sys, event, tail);
    LinkGrows(h, sys.history, LineOf(h, sys.log, event).rec, Step(h, sys, event).log);
  }

  lemma InvStep(h: Hash, sys: Sys, event: Event)
    requires IsHexHash(h) && Inv(h, sys) && GoodEntry(event)
    ensures Inv(h, Step(h, sys, event))
  {
    if event.Write? {
      TailShape(h, sys.history);
      InitializedTail(h, sys);
      RecordFacts(h, event.entry, event.timestamp, Initialize(sys.log).last);
      SealedExactly(h, event.entry, event.timestamp, Initialize(sys.log).last);
      ChainGrows(h, sys, event);
      RetainedWrite(h, sys, event);
    }
  }

  lemma RetainedWrite(h: Hash, sys: Sys, event: Event)
    requires event.Write? && Retained(sys.log, sys.history)
    ensures Retained(Step(h, sys, event).log, Step(h, sys, event).history)
  {
    var ready := Initialize(sys.log);
    var rec := Record(h, event.entry, event.timestamp, ready.last);
    RetainedGrows(ready.(last := Field(rec, HASH_KEY)), sys.history, event.full, LineOf(h, sys.log, event));
  }

  lemma {:induction false} InvRun(h: Hash, sys: Sys, events: seq<Event>)
    requires IsHexHash(h) && Inv(h, sys) && AllGood(events)
    ensures Inv(h, Run(h, sys, events))
    decreases |events|
  {
    if events != [] {
      InvStep(h, sys, events[0]);
      InvRun(h, Step(h, sys, events[0]), events[1..]);
    }
  }

  lemma SuffixLinked(h: Hash, history: Volume, cut: nat)
    requires Linked(h, history) && cut <= |history|
    ensures Linked(h, history[cut..])
  {
    assert history == history[..cut] + history[cut..];
    LinkedConcat(h, history[..cut], history[cut..]);
  }

  /** The volumes are the end of the history, and the collector counts and accepts them all. */
  ghost predicate ReportedIntact(h: Hash, sys: Sys) {
    var lines := Lines(sys.log.older, sys.log.current);
    && sys.history != [] && |lines| <= |sys.history| && sys.history[|sys.history| - |lines|..] == lines
    && AuditFileStatus(h, sys.log.older, sys.log.current)
       == Status(if sys.log.older.Some? then 2 else 1, |lines|, true, JStr(HashesOf(h, sys.history)[|sys.history| - 1]))
  }

  lemma InvMeansIntact(h: Hash, sys: Sys)
    requires Inv(h, sys) && sys.history != []
    ensures ReportedIntact(h, sys)
  {
    var log, lines := sys.log, Lines(sys.log.older, sys.log.current);
    SuffixLinked(h, sys.history, |sys.history| - |lines|);
    StatusShape(h, log.older, log.current);
    CollectorExactly(h, log.older, log.current);
    LastOfLines(log, sys.history);
    TailIsHash(h, sys.history);
    assert Last(lines) == Last(log.current.value);
  }

  lemma StatusShape(h: Hash, older: Option<Volume>, current: Option<Volume>)
    ensures var status := AuditFileStatus(h, older, current);
      status.Status? && status.chainOk ==> status.volumes == if older.Some? then 2 else 1
  {
  }

  /** Every run of records, rotations and restarts leaves the end of the history on disk, and
      the collector reports it intact, when no entry has an undefined member. */
  lemma RunsStayIntact(h: Hash, start: Sys, events: seq<Event>)
    requires IsHexHash(h) && IsStart(start) && AllGood(events)
    ensures Run(h, start, events).history != [] ==> ReportedIntact(h, Run(h, start, events))
  {
    StartIsSound(h, start);
    InvRun(h, start, events);
    if Run(h, start, events).history != [] {
      InvMeansIntact(h, Run(h, start, events));
    }
  }

  lemma StartIsSound(h: Hash, start: Sys)
    requires IsStart(start)
    ensures Inv(h, start)
  {
  }

  lemma SealedMeansIntact(h: Hash, sys: Sys, event: Event)
    requires IsHexHash(h) && Inv(h, sys) && event.Write? && ProperMembers(event.entry)
    requires Sealed(h, LineOf(h, sys.log, event).rec)
    ensures ReportedIntact(h, Step(h, sys, event))
  {
    ChainGrows(h, sys, event);
    RetainedWrite(h, sys, event);
    InvMeansIntact(h, Step(h, sys, event));
  }

  /** An undefined member is what breaks it: the next record leaves the log intact exactly
      when its entry has none, or its own texts before and after hash alike. */
  lemma WriteKeepsIntactExactly(h: Hash, sys: Sys, event: Event)
    requires IsHexHash(h) && Inv(h, sys) && event.Write? && ProperMembers(event.entry)
    ensures var rec := Record(h, event.entry, event.timestamp, Initialize(sys.log).last);
      ReportedIntact(h, Step(h, sys, event)) <==> EntryWhole(event.entry) || Collide(h, OnDisk(rec), rec)
  {
    TailShape(h, sys.history);
    InitializedTail(h, sys);
    SealedExactly(h, event.entry, event.timestamp, Initialize(sys.log).last);
    if Sealed(h, LineOf(h, sys.log, event).rec) {
      SealedMeansIntact(h, sys, event);
    }
    if ReportedIntact(h, Step(h, sys, event)) {
      IntactMeansSealed(h, sys, event);
    }
  }

  lemma IntactMeansSealed(h: Hash, sys: Sys, event: Event)
    requires event.Write? && ReportedIntact(h, Step(h, sys, event))
    ensures Sealed(h, LineOf(h, sys.log, event).rec)
  {
    var next := Step(h, sys, event);
    var lines := Lines(next.log.older, next.log.current);
    CollectorExactly(h, next.log.older, next.log.current);
    assert Last(lines) == LineOf(h, sys.log, event);
  }

  // ---- What runs keep of their entries -----------------------------------

  /** The first write after a start takes up the last line's hash, if that is a text of 64
      characters; later ones, and those behind anything else, go on from what they have. */
  lemma InitializedExactly(log: Log)
    ensures var next := Initialize(log);
      && next.initialized && next.older == log.older && next.current == log.current
      && forall lines, rec, tail | log.current == Some(lines + [Parsed(rec)]) && Field(rec, HASH_KEY) == JStr(tail) ::
           next.last == if !log.initialized && |tail| == 64 then JStr(tail) else log.last
    ensures log.current.None? || log.current == Some([]) ==> Initialize(log).last == log.last
    ensures forall lines, rec | log.current == Some(lines + [Parsed(rec)]) && !Field(rec, HASH_KEY).JStr? ::
      Initialize(log).last == log.last
    ensures forall lines | log.current == Some(lines + [Junk]) :: Initialize(log).last == log.last
  {
  }

  /** The volumes after a write: a full one becomes the older one. */
  lemma VolumesExactly(h: Hash, sys: Sys, event: Event)
    requires event.Write?
    ensures var log, next := sys.log, Step(h, sys, event).log; var line := LineOf(h, sys.log, event);
      if event.full && log.current.Some?
      then next.older == log.current && next.current == Some([line])
      else next.older == log.older
           && next.current == Some((if log.current.Some? then log.current.value else []) + [line])
  {
    assert [] + [LineOf(h, sys.log, event)] == [LineOf(h, sys.log, event)];
  }

  /** The text of a line: undefined members are left out, and undefined items are null. */
  function LineText(rec: Json): Text {
    TextOf(OnDisk(rec))
  }

  /** It is one line, and is read as the record is taken to be on disk. */
  lemma LineReadsBack(rec: Json)
    requires Proper(rec)
    ensures LINE_FEED !in LineText(rec)
    ensures JsonReader.ReadValue(LineText(rec)) == Some((OnDisk(rec), []))
  {
    OnDiskIsClean(rec);
    TextOneLine(OnDisk(rec));
    JsonReader.ReadsBack(OnDisk(rec), []);
    assert LineText(rec) + [] == LineText(rec);
  }

  /** A line read back holds its entry. */
  lemma LineHolds(h: Hash, log: Log, event: Event, k: Text)
    requires event.Write? && ProperMembers(event.entry) && (log.last.JNull? || log.last.JStr?)
    requires HasKey(event.entry, k) && !Lookup(event.entry, k).JUndef? && k != HASH_KEY && k != PREV_KEY
    ensures LineOf(h, log, event).Parsed?
    ensures Field(LineOf(h, log, event).rec, k) == OnDisk(Lookup(event.entry, k))
  {
    var last := Initialize(log).last;
    var rec := Record(h, event.entry, event.timestamp, last);
    RecordHolds(h, event.entry, event.timestamp, last, k);
    RecordFacts(h, event.entry, event.timestamp, last);
    LookupOnDisk(rec.members, k);
  }

  /** The entries written, in order. */
  function EntriesWritten(events: seq<Event>): seq<Members> {
    if events == [] then [] else
      (if events[0].Write? then [events[0].entry] else []) + EntriesWritten(events[1..])
  }

  ghost predicate AllProperEntries(events: seq<Event>) {
    forall i | 0 <= i < |events| && events[i].Write? :: ProperMembers(events[i].entry)
  }

  lemma LastIsText(h: Hash, sys: Sys, event: Event)
    requires (sys.log.last.JNull? || sys.log.last.JStr?) && (event.Write? ==> ProperMembers(event.entry))
    ensures var last := Step(h, sys, event).log.last; last.JNull? || last.JStr?
  {
    if event.Write? {
      RecordFacts(h, event.entry, event.timestamp, Initialize(sys.log).last);
    }
  }

  lemma {:induction false} HistoryGrows(h: Hash, sys: Sys, events: seq<Event>)
    ensures |Run(h, sys, events).history| == |sys.history| + |EntriesWritten(events)|
    ensures Run(h, sys, events).history[..|sys.history|] == sys.history
    decreases |events|
  {
    if events != [] {
      var next := Step(h, sys, events[0]);
      HistoryGrows(h, next, events[1..]);
      assert sys.history == next.history[..|sys.history|];
    }
  }

  /** The line there holds what the entry has under the key. */
  ghost predicate HoldsAt(history: Volume, i: nat, entry: Members, k: Text) {
    i < |history| && history[i].Parsed? && Field(history[i].rec, k) == OnDisk(Lookup(entry, k))
  }

  ghost predicate Asks(entry: Members, k: Text) {
    HasKey(entry, k) && !Lookup(entry, k).JUndef? && k != HASH_KEY && k != PREV_KEY
  }

  lemma WriteHolds(h: Hash, sys: Sys, events: seq<Event>, k: Text)
    requires AllProperEntries(events) && (sys.log.last.JNull? || sys.log.last.JStr?)
    requires events != [] && events[0].Write? && Asks(events[0].entry, k)
    ensures HoldsAt(Run(h, sys, events).history, |sys.history|, events[0].entry, k)
  {
    var next := Step(h, sys, events[0]);
    LineHolds(h, sys.log, events[0], k);
    HistoryGrows(h, next, events[1..]);
    assert next.history == Run(h, next, events[1..]).history[..|next.history|];
  }

  /** Over every run the n-th line written holds the n-th entry, under every key with a value
      but the two the writer sets. */
  lemma {:induction false} RunsHoldEntries(h: Hash, sys: Sys, events: seq<Event>, n: nat, k: Text)
    requires AllProperEntries(events) && (sys.log.last.JNull? || sys.log.last.JStr?)
    requires n < |EntriesWritten(events)| && Asks(EntriesWritten(events)[n], k)
    ensures HoldsAt(Run(h, sys, events).history, |sys.history| + n, EntriesWritten(events)[n], k)
    decreases |events|
  {
    var event, rest := events[0], events[1..];
    LastIsText(h, sys, event);
    assert forall i | 0 <= i < |rest| :: rest[i] == events[i + 1];
    if !event.Write? {
      RunsHoldEntries(h, Step(h, sys, event), rest, n, k);
    } else if n > 0 {
      RunsHoldEntries(h, Step(h, sys, event), rest, n - 1, k);
    } else {
      WriteHolds(h, sys, events, k);
    }
  }
}
