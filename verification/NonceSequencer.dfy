/**
 The nonce sequencer (mcp-server/src/relayer-coordinator.js): any number of instances take
 nonces from one shared counter, each by reading a snapshot and updating on condition that
 the counter's version is still the one read.
 */
module NonceSequencer {
  import opened Common
  import opened SharedStore

  const INNER_RETRIES := 25
  const MAX_CAS_ATTEMPTS := 10

  /** Acquire starts at `start` if there is no counter; Sync raises the counter to `count`. */
  datatype Op = Acquire(start: int) | Sync(count: int)

  /** What committed, in commit order. */
  datatype Commit = Issued(nonce: int, start: int) | Synced(count: int)

  /** The counter's new content: the next nonce to issue. */
  function Mutate(op: Op, current: Option<int>): int {
    match op
    case Acquire(start) => current.GetOr(start) + 1
    case Sync(count) => Max(current.GetOr(0), count)
  }

  function Max(a: int, b: int): int {
    if a < b then b else a
  }

  function Committed(op: Op, next: int): Commit {
    match op
    case Acquire(start) => Issued(next - 1, start)
    case Sync(count) => Synced(count)
  }

  // ---- One call on one instance ------------------------------------------

  datatype SeqError = CounterCorrupt

  method AcquireNonce(store: SqliteStore<int, SeqError>, key: string, start: int,
                      weather: nat -> nat -> Weather<int>, now: int)
    returns (nonce: Option<int>, ghost before: seq<Row<int>>)
    modifies store
    ensures nonce.Some? ==>
      exists seen: Option<Rec<int>> ::
        && Applies(seen, Find(before, key))
        && nonce.value == ValueOf(seen).GetOr(start)
        && store.rows == Put(before, key, Rec(nonce.value + 1, VersionOf(Find(before, key)) + 1, now))
    ensures nonce.None? ==> store.rows == before
    ensures nonce.None? ==> forall k, i | 0 <= k < MAX_CAS_ATTEMPTS && 0 <= i <= INNER_RETRIES :: weather(k)(i) != Calm
  {
    var op := Acquire(start);
    var casAttempts := 0;
    before := store.rows;
    while casAttempts < MAX_CAS_ATTEMPTS
      invariant casAttempts <= MAX_CAS_ATTEMPTS && store.rows == before
      invariant forall k, i | 0 <= k < casAttempts && 0 <= i <= INNER_RETRIES :: weather(k)(i) != Calm
    {
      var r, seen, met := store.WriteAtomically(key, current => Ok(Mutate(op, current)), None, INNER_RETRIES,
                                                weather(casAttempts), now);
      before := met;
      if r.Ok? {
        return Some(r.value.value - 1), before;
      }
      casAttempts := casAttempts + 1;
    }
    nonce := None;
  }

  /** None is a count that is no finite number. One exhausted write is final here. */
  method SyncAtLeast(store: SqliteStore<int, SeqError>, key: string, chainCount: Option<int>,
                     weather: nat -> Weather<int>, now: int)
    returns (synced: bool, ghost before: seq<Row<int>>)
    modifies store
    ensures synced ==> chainCount.Some? && chainCount.value >= 0
    ensures synced ==>
      exists seen: Option<Rec<int>> ::
        && Applies(seen, Find(before, key))
        && store.rows == Put(before, key,
            Rec(Max(ValueOf(seen).GetOr(0), chainCount.value), VersionOf(Find(before, key)) + 1, now))
    ensures !synced ==> store.rows == before
    ensures chainCount.None? || chainCount.value < 0 ==> !synced && before == old(store.rows)
  {
    if chainCount.None? || chainCount.value < 0 {
      return false, store.rows;
    }
    var op := Sync(chainCount.value);
    var r, seen, met := store.WriteAtomically(key, current => Ok(Mutate(op, current)),
        None, INNER_RETRIES, weather, now);
    return r.Ok?, met;
  }

  // ---- Many instances ----------------------------------------------------

  type Counter = Option<Rec<int>>

  /** Where an instance is: how many inner and outer tries it has used, and what it read. */
  datatype Phase =
    | Idle
    | Trying(op: Op, inner: nat, outer: nat)
    | Holding(op: Op, inner: nat, outer: nat, seen: Counter)

  datatype Sys = Sys(counter: Counter, phases: map<nat, Phase>, log: seq<Commit>)

  const START := Sys(None, map[], [])

  /** One instance's next move; Purge is housekeeping that removes the counter row. */
  datatype Move = Call(i: nat, op: Op) | Snapshot(i: nat) | Busy(i: nat) | Update(i: nat) | Crash(i: nat) | Purge

  function PhaseOf(sys: Sys, i: nat): Phase {
    if i in sys.phases then sys.phases[i] else Idle
  }

  /** After a failed try: again, or the outer loop again (taking only), or give up. */
  function Retry(op: Op, inner: nat, outer: nat): Phase {
    if inner < INNER_RETRIES then Trying(op, inner + 1, outer)
    else if op.Acquire? && outer + 1 < MAX_CAS_ATTEMPTS then Trying(op, 0, outer + 1)
    else Idle
  }

  function Updated(sys: Sys, i: nat): Sys
    requires PhaseOf(sys, i).Holding?
  {
    var h := PhaseOf(sys, i);
    if Applies(h.seen, sys.counter) then
      var next := Mutate(h.op, ValueOf(h.seen));
      Sys(Some(Rec(next, VersionOf(sys.counter) + 1, 0)), sys.phases[i := Idle], sys.log + [Committed(h.op, next)])
    else sys.(phases := sys.phases[i := Retry(h.op, h.inner, h.outer)])
  }

  function Step(sys: Sys, m: Move): Sys {
    match m
    case Call(i, op) =>
      if PhaseOf(sys, i).Idle? && (op.Sync? ==> op.count >= 0) then
        sys.(phases := sys.phases[i := Trying(op, 0, 0)])
      else
        sys
    case Snapshot(i) =>
      var p := PhaseOf(sys, i);
      if p.Trying? then sys.(phases := sys.phases[i := Holding(p.op, p.inner, p.outer, sys.counter)]) else sys
    case Busy(i) =>
      var p := PhaseOf(sys, i);
      if p.Idle? then sys else sys.(phases := sys.phases[i := Retry(p.op, p.inner, p.outer)])
    case Update(i) => if PhaseOf(sys, i).Holding? then Updated(sys, i) else sys
    case Crash(i) => sys.(phases := sys.phases[i := Idle])
    case Purge => sys.(counter := None)
  }

  function Run(sys: Sys, moves: seq<Move>): Sys
    decreases |moves|
  {
    if moves == [] then sys else Run(Step(sys, moves[0]), moves[1..])
  }

  // ---- The counter is the history of commits -----------------------------

  /** The counter a history leaves; None before the first commit. */
  function Replayed(log: seq<Commit>): Option<int> {
    if log == [] then None else
      var before := Replayed(log[..|log| - 1]);
      match log[|log| - 1]
      case Issued(nonce, start) => Some(nonce + 1)
      case Synced(count) => Some(Max(before.GetOr(0), count))
  }

  /** Every nonce issued is the one the history before it calls for: the interleaved run is
      a run of whole operations, one at a time, in commit order. */
  ghost predicate Sequential(log: seq<Commit>) {
    forall k | 0 <= k < |log| && log[k].Issued? :: log[k].nonce == Replayed(log[..k]).GetOr(log[k].start)
  }

  ghost predicate IsSnapshot(log: seq<Commit>, c: Counter) {
    && VersionOf(c) <= |log| && (c.Some? <==> VersionOf(c) > 0)
    && ValueOf(c) == Replayed(log[..VersionOf(c)])
  }

  ghost predicate Inv(sys: Sys) {
    && Sequential(sys.log)
    && IsSnapshot(sys.log, sys.counter) && VersionOf(sys.counter) == |sys.log|
    && forall i | i in sys.phases && sys.phases[i].Holding? :: IsSnapshot(sys.log, sys.phases[i].seen)
  }

  lemma SnapshotGrows(log: seq<Commit>, c: Commit, seen: Counter)
    requires IsSnapshot(log, seen)
    ensures IsSnapshot(log + [c], seen)
  {
    assert (log + [c])[..VersionOf(seen)] == log[..VersionOf(seen)];
  }

  lemma SequentialSnoc(log: seq<Commit>, c: Commit)
    requires Sequential(log)
    requires c.Issued? ==> c.nonce == Replayed(log).GetOr(c.start)
    ensures Sequential(log + [c])
  {
    var all, n := log + [c], |log|;
    forall k | 0 <= k < |all| && all[k].Issued? ensures all[k].nonce == Replayed(all[..k]).GetOr(all[k].start) {
      assert k < n ==> all[..k] == log[..k] && all[k] == log[k];
      assert k == n ==> all[..k] == log && all[k] == c;
    }
  }

  /** An update that applies commits on the history as it stands. */
  lemma UpdateCommits(sys: Sys, i: nat)
    requires Inv(sys) && PhaseOf(sys, i).Holding? && Applies(PhaseOf(sys, i).seen, sys.counter)
    ensures var next := Updated(sys, i);
      Sequential(next.log) && IsSnapshot(next.log, next.counter) && VersionOf(next.counter) == |next.log|
  {
    var h, next := PhaseOf(sys, i), Updated(sys, i);
    assert IsSnapshot(sys.log, h.seen);
    assert VersionOf(h.seen) == |sys.log| && sys.log[..|sys.log|] == sys.log;
    SequentialSnoc(sys.log, Committed(h.op, Mutate(h.op, ValueOf(h.seen))));
    assert next.log[..|sys.log|] == sys.log && next.log[..|next.log|] == next.log;
  }

  lemma InvStep(sys: Sys, m: Move)
    requires Inv(sys) && !m.Purge?
    ensures Inv(Step(sys, m))
  {
    var next := Step(sys, m);
    if m.Update? && PhaseOf(sys, m.i).Holding? && Applies(PhaseOf(sys, m.i).seen, sys.counter) {
      UpdateCommits(sys, m.i);
      forall j | j in next.phases && next.phases[j].Holding? ensures IsSnapshot(next.log, next.phases[j].seen) {
        SnapshotGrows(sys.log, next.log[|sys.log|], sys.phases[j].seen);
      }
    }
  }

  lemma {:induction false} InvRun(sys: Sys, moves: seq<Move>)
    requires Inv(sys) && Purge !in moves
    ensures Inv(Run(sys, moves))
    decreases |moves|
  {
    if moves != [] {
      InvStep(sys, moves[0]);
      InvRun(Step(sys, moves[0]), moves[1..]);
    }
  }

  // ---- What a sequential history means -----------------------------------

  /** The counter never falls below what an earlier commit left. */
  lemma {:induction false} CounterRises(log: seq<Commit>, k: nat)
    requires Sequential(log) && 0 < k <= |log|
    ensures Replayed(log[..k]).Some? && Replayed(log).Some? && Replayed(log).value >= Replayed(log[..k]).value
    decreases |log|
  {
    if k == |log| {
      assert log[..k] == log;
    } else {
      var n := |log| - 1;
      var init := log[..n];
      SequentialPrefix(log, n);
      assert init[..k] == log[..k];
      CounterRises(init, k);
      assert log[n].Issued? ==> log[n].nonce == Replayed(init).value;
    }
  }

  lemma SequentialPrefix(log: seq<Commit>, n: nat)
    requires Sequential(log) && n <= |log|
    ensures Sequential(log[..n])
  {
    forall k | 0 <= k < n && log[..n][k].Issued?
      ensures log[..n][k].nonce == Replayed(log[..n][..k]).GetOr(log[..n][k].start)
    {
      assert log[..n][..k] == log[..k];
    }
  }

  /** What came first bounds what is issued later. */
  lemma LaterIsHigher(log: seq<Commit>, j: nat, k: nat)
    requires Sequential(log) && j < k < |log| && log[k].Issued?
    ensures log[j].Issued? ==> log[j].nonce < log[k].nonce
    ensures log[j].Synced? ==> log[j].count <= log[k].nonce
  {
    var init := log[..k];
    SequentialPrefix(log, k);
    CounterRises(init, j + 1);
    assert init[..j + 1][..j] == log[..j] && init[..j + 1][j] == log[j];
  }

  /** In every run without a purge of the counter row, however the instances interleave:
      nonces strictly increase in commit order, so none is issued twice, and every nonce is
      at least every chain count synced before it. */
  lemma NoncesIncrease(moves: seq<Move>, j: nat, k: nat)
    requires Purge !in moves && j < k < |Run(START, moves).log|
    ensures var log := Run(START, moves).log;
      && Sequential(log)
      && (log[k].Issued? && log[j].Issued? ==> log[j].nonce < log[k].nonce)
      && (log[k].Issued? && log[j].Synced? ==> log[j].count <= log[k].nonce)
  {
    InvRun(START, moves);
    var log := Run(START, moves).log;
    if log[k].Issued? {
      LaterIsHigher(log, j, k);
    }
  }

  // ---- Giving up ---------------------------------------------------------

  /** Own moves a call has left before it commits or gives up. */
  function Fuel(p: Phase): nat {
    match p
    case Idle => 0
    case Trying(op, inner, outer) => Tries(op, inner, outer) + 1
    case Holding(op, inner, outer, _) => Tries(op, inner, outer)
  }

  function Tries(op: Op, inner: nat, outer: nat): nat {
    1 + 2 * Left(INNER_RETRIES, inner) + if op.Acquire? then 52 * Left(MAX_CAS_ATTEMPTS - 1, outer) else 0
  }

  function Left(limit: nat, used: nat): nat {
    if used < limit then limit - used else 0
  }

  /** A call never spins: every move of its own brings it nearer its end, and it starts with
      at most 520 of them. */
  lemma CallsEnd(sys: Sys, m: Move)
    requires m.Snapshot? || m.Busy? || m.Update?
    ensures var p, q := PhaseOf(sys, m.i), PhaseOf(Step(sys, m), m.i);
      var own := (m.Snapshot? && p.Trying?) || (m.Busy? && !p.Idle?) || (m.Update? && p.Holding?);
      if own then Fuel(q) < Fuel(p) else q == p
    ensures forall op: Op :: Fuel(Trying(op, 0, 0)) <= 520
  {
  }

  /** And it gives up, without a commit, exactly when the twenty-sixth try of a write fails and
      that was the only write of a sync, or the tenth of an acquisition. */
  lemma GivesUpExactly(sys: Sys, m: Move)
    requires Inv(sys) && (m.Snapshot? || m.Busy? || m.Update?)
    ensures var p, q := PhaseOf(sys, m.i), PhaseOf(Step(sys, m), m.i);
      Step(sys, m).log == sys.log && !p.Idle? && q.Idle? <==>
        && ((m.Busy? && !p.Idle?) || (m.Update? && p.Holding? && VersionOf(p.seen) != VersionOf(sys.counter)))
        && p.inner >= 25 && (p.op.Sync? || p.outer >= 9)
  {
    assert |sys.log + [Synced(0)]| != |sys.log|;
  }

  /** From any reachable state a call that nothing disturbs ends with its commit: a nonce that
      is the counter, or the caller's start, or the counter at least at the chain's count. */
  lemma UndisturbedCommits(moves: seq<Move>, i: nat, op: Op)
    requires Purge !in moves && PhaseOf(Run(START, moves), i).Idle? && (op.Sync? ==> op.count >= 0)
    ensures var sys := Run(START, moves); var was := Replayed(sys.log);
      var end := Step(Step(Step(sys, Call(i, op)), Snapshot(i)), Update(i));
      && PhaseOf(end, i).Idle?
      && end.log == sys.log + [if op.Acquire? then Issued(was.GetOr(op.start), op.start) else Synced(op.count)]
      && ValueOf(end.counter)
         == Some(if op.Acquire? then was.GetOr(op.start) + 1
                 else if was.Some? && was.value > op.count then was.value else op.count)
  {
    var sys := Run(START, moves);
    InvRun(START, moves);
    assert sys.log[..|sys.log|] == sys.log;
  }

  // ---- What a purge of the counter does ----------------------------------

  /** Calls in hand sync to counts that are not negative, and so do the commits. */
  ghost predicate CountsValid(sys: Sys) {
    && (forall i | i in sys.phases :: OpValid(sys.phases[i]))
    && (forall k | 0 <= k < |sys.log| && sys.log[k].Synced? :: sys.log[k].count >= 0)
  }

  ghost predicate OpValid(p: Phase) {
    !p.Idle? && p.op.Sync? ==> p.op.count >= 0
  }

  lemma CountsStep(sys: Sys, m: Move)
    requires Inv(sys) && CountsValid(sys) && !m.Purge?
    ensures CountsValid(Step(sys, m))
  {
    if m.Update? && PhaseOf(sys, m.i).Holding? && Applies(PhaseOf(sys, m.i).seen, sys.counter) {
      assert OpValid(sys.phases[m.i]);
    }
  }

  lemma {:induction false} CountsRun(sys: Sys, moves: seq<Move>)
    requires Inv(sys) && CountsValid(sys) && Purge !in moves
    ensures CountsValid(Run(sys, moves))
    decreases |moves|
  {
    if moves != [] {
      CountsStep(sys, moves[0]);
      InvStep(sys, moves[0]);
      CountsRun(Step(sys, moves[0]), moves[1..]);
    }
  }

  /** What the promise of NoncesIncrease asks of a nonce issued after these commits. */
  ghost predicate Above(log: seq<Commit>, nonce: int) {
    forall k | 0 <= k < |log| :: Below(log[k], nonce)
  }

  ghost predicate Below(c: Commit, nonce: int) {
    if c.Issued? then c.nonce < nonce else c.count <= nonce
  }

  lemma AboveSnoc(init: seq<Commit>, c: Commit, nonce: int)
    ensures Above(init + [c], nonce) <==> Above(init, nonce) && Below(c, nonce)
  {
    var log := init + [c];
    assert log[|init|] == c;
    assert forall k | 0 <= k < |init| :: log[k] == init[k];
  }

  lemma ReplayedSnoc(init: seq<Commit>, c: Commit)
    ensures Replayed(init + [c])
         == Some(if c.Issued? then c.nonce + 1 else Max(Replayed(init).GetOr(0), c.count))
  {
    assert (init + [c])[..|init|] == init;
  }

  ghost predicate CountsNonNegative(log: seq<Commit>) {
    forall k | 0 <= k < |log| && log[k].Synced? :: log[k].count >= 0
  }

  /** A nonce is above everything before it exactly when it is not below the counter. */
  lemma {:induction false} AboveExactly(log: seq<Commit>, nonce: int)
    requires Sequential(log) && CountsNonNegative(log)
    ensures Above(log, nonce) <==> log == [] || nonce >= Replayed(log).value
    ensures log != [] ==> Replayed(log).Some?
    decreases |log|
  {
    if log != [] {
      var n := |log| - 1;
      var init, last := log[..n], log[n];
      SequentialPrefix(log, n);
      AboveExactly(init, nonce);
      assert last.Issued? ==> last.nonce == Replayed(init).GetOr(last.start);
      assert log == init + [last];
      AboveSnoc(init, last, nonce);
      ReplayedSnoc(init, last);
    }
  }

  /** Housekeeping removes the counter, then one instance takes a nonce undisturbed. */
  function PurgeAndTake(i: nat, start: int): seq<Move> {
    [Purge] + ([Call(i, Acquire(start))] + ([Snapshot(i)] + ([Update(i)] + [])))
  }

  lemma RunCons(sys: Sys, m: Move, rest: seq<Move>)
    ensures Run(sys, [m] + rest) == Run(Step(sys, m), rest)
  {
    assert ([m] + rest)[1..] == rest;
  }

  lemma TakeAfterPurge(sys: Sys, i: nat, start: int)
    requires PhaseOf(sys, i).Idle?
    ensures Run(sys, PurgeAndTake(i, start)).log == sys.log + [Issued(start, start)]
  {
    var s1 := Step(sys, Purge);
    var s2 := Step(s1, Call(i, Acquire(start)));
    var s3 := Step(s2, Snapshot(i));
    RunCons(sys, Purge, [Call(i, Acquire(start))] + ([Snapshot(i)] + ([Update(i)] + [])));
    RunCons(s1, Call(i, Acquire(start)), [Snapshot(i)] + ([Update(i)] + []));
    RunCons(s2, Snapshot(i), [Update(i)] + []);
    RunCons(s3, Update(i), []);
  }

  /** From any reachable state, a purge makes the next nonce the caller's start, whatever was
      issued before. It is above all of that exactly when the start is not below the counter
      purged, which a caller can take from the chain's count. */
  lemma PurgeIsSafeExactly(moves: seq<Move>, i: nat, start: int)
    requires Purge !in moves && PhaseOf(Run(START, moves), i).Idle?
    ensures var sys := Run(START, moves); var after := Run(sys, PurgeAndTake(i, start));
      && after.log == sys.log + [Issued(start, start)]
      && (Above(sys.log, start) <==> sys.counter.None? || start >= sys.counter.value.value)
  {
    var sys := Run(START, moves);
    InvRun(START, moves);
    CountsRun(START, moves);
    TakeAfterPurge(sys, i, start);
    AboveExactly(sys.log, start);
    assert sys.log[..|sys.log|] == sys.log;
  }

  // ---- Whole runs after a purge ------------------------------------------

  /** No instance is between its read and its update. The store does both in one transaction,
      so no purge falls between; the model's snapshots would outlive one. */
  ghost predicate NobodyHolds(sys: Sys) {
    forall i | i in sys.phases :: !sys.phases[i].Holding?
  }

  function WithLog(sys: Sys, earlier: seq<Commit>): Sys {
    sys.(log := earlier + sys.log)
  }

  lemma StepShifts(sys: Sys, earlier: seq<Commit>, m: Move)
    ensures Step(WithLog(sys, earlier), m) == WithLog(Step(sys, m), earlier)
  {
    if m.Update? && PhaseOf(sys, m.i).Holding? && Applies(PhaseOf(sys, m.i).seen, sys.counter) {
      var c := Committed(PhaseOf(sys, m.i).op, Mutate(PhaseOf(sys, m.i).op, ValueOf(PhaseOf(sys, m.i).seen)));
      assert earlier + sys.log + [c] == earlier + (sys.log + [c]);
    }
  }

  /** What came before plays no part in a run. */
  lemma {:induction false} RunShifts(sys: Sys, earlier: seq<Commit>, moves: seq<Move>)
    ensures Run(WithLog(sys, earlier), moves) == WithLog(Run(sys, moves), earlier)
    decreases |moves|
  {
    if moves != [] {
      StepShifts(sys, earlier, moves[0]);
      RunShifts(Step(sys, moves[0]), earlier, moves[1..]);
    }
  }

  /** The first commit that issues; |log| if there is none. */
  function FirstIssue(log: seq<Commit>): (f: nat)
    ensures f <= |log| && (f < |log| ==> log[f].Issued?)
    ensures forall k | 0 <= k < f :: log[k].Synced?
  {
    if log == [] || log[0].Issued? then 0 else 1 + FirstIssue(log[1..])
  }

  /** Where issuing begins: the largest count synced by then, or the first taker's start. */
  function Floor(log: seq<Commit>): Option<int> {
    var f := FirstIssue(log);
    if f < |log| then Some(Replayed(log[..f]).GetOr(log[f].start)) else None
  }

  ghost predicate AllAbove(log: seq<Commit>, later: seq<Commit>) {
    forall k | 0 <= k < |later| && later[k].Issued? :: Above(log, later[k].nonce)
  }

  lemma AboveLower(log: seq<Commit>, n: int, m: int)
    requires Above(log, n) && n <= m
    ensures Above(log, m)
  {
  }

  /** All issued later is above what came before exactly when the first is. */
  lemma FirstDecides(log: seq<Commit>, later: seq<Commit>)
    requires Sequential(later)
    ensures AllAbove(log, later) <==> Floor(later).None? || Above(log, Floor(later).value)
  {
    var f := FirstIssue(later);
    if f < |later| && Above(log, Floor(later).value) {
      forall k | 0 <= k < |later| && later[k].Issued? ensures Above(log, later[k].nonce) {
        if k > f {
          LaterIsHigher(later, f, k);
          AboveLower(log, later[f].nonce, later[k].nonce);
        }
      }
    }
  }

  /** Over every run of every instance after a purge: what is then committed is again a
      sequential history, and everything issued in it is above everything before exactly when
      issuing begins no lower than the purged counter. */
  lemma RunAfterPurgeExactly(pre: seq<Move>, post: seq<Move>)
    requires Purge !in pre && Purge !in post && NobodyHolds(Run(START, pre))
    ensures var sys := Run(START, pre); var all, n := Run(sys, [Purge] + post).log, |sys.log|;
      && n <= |all| && all[..n] == sys.log && Sequential(all[n..])
      && (AllAbove(sys.log, all[n..]) <==>
            Floor(all[n..]).None? || sys.counter.None? || Floor(all[n..]).value >= sys.counter.value.value)
  {
    var sys := Run(START, pre);
    var anew := Sys(None, sys.phases, []);
    InvRun(START, pre);
    CountsRun(START, pre);
    RunCons(sys, Purge, post);
    assert Step(sys, Purge) == WithLog(anew, sys.log);
    RunShifts(anew, sys.log, post);
    InvRun(anew, post);
    var later := Run(anew, post).log;
    assert Run(sys, [Purge] + post).log == sys.log + later;
    FirstDecides(sys.log, later);
    if Floor(later).Some? {
      AboveExactly(sys.log, Floor(later).value);
    }
    assert sys.log[..|sys.log|] == sys.log;
  }

  /** In particular the first nonce is issued again to whoever starts where the first caller
      did, as every caller without a start of its own does. */
  lemma PurgeReissues(moves: seq<Move>, i: nat)
    requires Purge !in moves && PhaseOf(Run(START, moves), i).Idle?
    requires Run(START, moves).log != [] && Run(START, moves).log[0].Issued?
    ensures var sys := Run(START, moves); var first := sys.log[0]; var after := Run(sys, PurgeAndTake(i, first.start));
      after.log == sys.log + [Issued(first.nonce, first.start)]
  {
    var sys := Run(START, moves);
    InvRun(START, moves);
    TakeAfterPurge(sys, i, sys.log[0].start);
    assert sys.log[..0] == [];
    assert sys.log[0].nonce == Replayed(sys.log[..0]).GetOr(sys.log[0].start);
  }
}
