/**
 The relay's broadcast loop (mcp-server/src/relayer-operations.js) against an arbitrary
 chain: what each broadcast answers and what each receipt look-up finds is an input.
 */
module RelayLoop {
  import opened Common

  /** A failure text, by the two word lists it is searched for. */
  datatype Reason = Reason(nonceWords: bool, networkWords: bool)

  datatype Response = Response(ok: bool, waitFailed: bool, txHash: string, errorName: Option<string>, reason: Reason)

  datatype Receipt = Receipt(succeeded: bool)

  /** One round: the answer to the broadcast, then what the two look-ups of its hash find. */
  datatype Round = Round(response: Response, before: Option<Receipt>, after: Option<Receipt>)

  datatype Class = Class(retryable: bool, code: string)

  datatype Ending =
    | Executed
    | Reconciled(txHash: string, receipt: Receipt)
    | Rejected(code: string)
    | RetriesExhausted(code: string)
    | Deduplicated(confirmed: bool)

  datatype Outcome = Outcome(ending: Ending, attempts: nat)

  // ---- Settings and classification ---------------------------------------

  /** Toward zero. */
  function Trunc(x: real): int {
    if x >= 0.0 then x.Floor else -((-x).Floor)
  }

  /** None is a setting that is absent or no finite number. */
  function ClampInt(raw: Option<real>, fallback: int, min: int, max: int): int {
    match raw
    case None => fallback
    case Some(x) => var n := Trunc(x); if n > max then (if max < min then min else max) else if n < min then min else n
  }

  function MaxRetries(raw: Option<real>): (n: nat)
    ensures n <= 5
    ensures raw.None? ==> n == 2
    ensures raw.Some? && raw.value < 1.0 ==> n == 0
    ensures raw.Some? && raw.value >= 6.0 ==> n == 5
    ensures raw.Some? && 0.0 <= raw.value < 6.0 ==> n as real <= raw.value < n as real + 1.0
  {
    ClampInt(raw, 2, 0, 5)
  }

  predicate Named(errorName: Option<string>) {
    errorName.Some? && errorName.value != ""
  }

  predicate IsNonceConflict(r: Response) {
    !Named(r.errorName) && r.reason.nonceWords
  }

  /** `known` are the contract's own error names. */
  function Classify(r: Response, known: set<string>): Class {
    if Named(r.errorName) && r.errorName.value in known then Class(false, r.errorName.value)
    else if IsNonceConflict(r) then Class(true, "NONCE_CONFLICT")
    else if r.reason.networkWords then Class(true, "RPC_ERROR")
    else Class(false, r.errorName.GetOr("UNKNOWN_REVERT"))
  }

  // ---- The loop ----------------------------------------------------------

  /** A broadcast that went out but whose confirmation failed. */
  predicate InDoubt(r: Response) {
    r.waitFailed && r.txHash != ""
  }

  /** How the loop ends when round k is the next one, if rounds up to `last` are allowed. */
  function From(rounds: nat -> Round, known: set<string>, k: nat, last: nat): Outcome
    requires k <= last
    decreases last - k
  {
    var Round(r, before, after) := rounds(k);
    var verdict := Classify(r, known);
    if r.ok then Outcome(Executed, k)
    else if InDoubt(r) && before.Some? then Outcome(Reconciled(r.txHash, before.value), k)
    else if !verdict.retryable then Outcome(Rejected(verdict.code), k)
    else if k == last then Outcome(RetriesExhausted(verdict.code), k)
    else if InDoubt(r) && after.Some? then Outcome(Reconciled(r.txHash, after.value), k)
    else From(rounds, known, k + 1, last)
  }

  /** `landed` is the record of an earlier broadcast of this intent, if there is one. */
  method ExecuteWithResilience(landed: Option<bool>, rounds: nat -> Round, known: set<string>, maxRetries: Option<real>)
    returns (out: Outcome)
    ensures landed.Some? ==> out == Outcome(Deduplicated(landed.value), 0)
    ensures landed.None? ==> out == From(rounds, known, 1, MaxRetries(maxRetries) + 1)
  {
    var retries := MaxRetries(maxRetries);
    var attempts := 0;
    var pendingHash := "";
    if landed.Some? {
      return Outcome(Deduplicated(landed.value), 0);
    }
    while true
      invariant attempts <= retries && pendingHash == ""
      invariant From(rounds, known, 1, retries + 1) == From(rounds, known, attempts + 1, retries + 1)
      decreases retries - attempts
    {
      attempts := attempts + 1;
      var Round(r, before, after) := rounds(attempts);
      if r.ok {
        return Outcome(Executed, attempts);
      }
      if InDoubt(r) {
        pendingHash := r.txHash;
        if before.Some? {
          return Outcome(Reconciled(r.txHash, before.value), attempts);
        }
      }
      var verdict := Classify(r, known);
      if !verdict.retryable {
        return Outcome(Rejected(verdict.code), attempts);
      }
      if attempts > retries {
        return Outcome(RetriesExhausted(verdict.code), attempts);
      }
      if pendingHash != "" {
        if after.Some? {
          return Outcome(Reconciled(pendingHash, after.value), attempts);
        }
        pendingHash := "";
      }
    }
  }

  // ---- When the loop broadcasts again ------------------------------------

  /** What must be true of a round for another broadcast to follow it. */
  ghost predicate MayFollow(round: Round, known: set<string>) {
    && !round.response.ok && MayRetry(round.response, known)
    && (round.response.waitFailed && round.response.txHash != "" ==> round.before.None? && round.after.None?)
  }

  /** No contract error that is known, and words of a nonce conflict, unless a contract error
      is named at all, or of the network. */
  ghost predicate MayRetry(r: Response, known: set<string>) {
    && (forall name | r.errorName == Some(name) :: name == "" || name !in known)
    && ((r.reason.nonceWords && (r.errorName == None || r.errorName.value == "")) || r.reason.networkWords)
  }

  /** The loop's length, exactly: it stops at the first round nothing may follow, or when the
      retries are used up. */
  lemma {:induction false} StopsExactly(rounds: nat -> Round, known: set<string>, k: nat, last: nat, j: nat)
    requires k <= j <= last
    ensures k <= From(rounds, known, k, last).attempts <= last
    ensures j < From(rounds, known, k, last).attempts <==>
        j < last && forall i | k <= i <= j :: MayFollow(rounds(i), known)
    decreases last - k
  {
    if k < last && MayFollow(rounds(k), known) {
      if k < j {
        StopsExactly(rounds, known, k + 1, last, j);
        assert (forall i | k <= i <= j :: MayFollow(rounds(i), known))
          <==> (forall i | k + 1 <= i <= j :: MayFollow(rounds(i), known));
      } else {
        StopsExactly(rounds, known, k + 1, last, k + 1);
      }
    }
  }

  /** At most six broadcasts, and another only after a failure that may be retried: never
      after a decoded contract error, and after a broadcast in doubt only once both look-ups
      of its hash found nothing. */
  lemma BroadcastsAgainOnlyAfter(rounds: nat -> Round, known: set<string>, maxRetries: Option<real>, j: nat)
    requires 1 <= j
    ensures var attempts := From(rounds, known, 1, MaxRetries(maxRetries) + 1).attempts;
      && 1 <= attempts <= MaxRetries(maxRetries) + 1 <= 6
      && (j < attempts ==> MayFollow(rounds(j), known))
  {
    var last := MaxRetries(maxRetries) + 1;
    StopsExactly(rounds, known, 1, last, if j <= last then j else last);
  }

  /** The ending tells what the last round was. */
  lemma {:induction false} EndingIsTrue(rounds: nat -> Round, known: set<string>, k: nat, last: nat)
    requires k <= last
    ensures var out := From(rounds, known, k, last);
      var Round(r, before, after) := rounds(out.attempts);
      match out.ending
      case Executed => r.ok
      case Reconciled(hash, receipt) =>
        !r.ok && r.waitFailed && hash == r.txHash != "" && Some(receipt) == if before.Some? then before else after
      case Rejected(code) =>
        !r.ok && !MayRetry(r, known) && code == if r.errorName.None? then "UNKNOWN_REVERT" else r.errorName.value
      case RetriesExhausted(code) =>
        && !r.ok && out.attempts == last && MayRetry(r, known)
        && code == if r.reason.nonceWords && (r.errorName == None || r.errorName.value == "")
                   then "NONCE_CONFLICT" else "RPC_ERROR"
      case Deduplicated(_) => false
    decreases last - k
  {
    if k < last && MayFollow(rounds(k), known) {
      EndingIsTrue(rounds, known, k + 1, last);
    }
  }

  /** A receipt that a look-up finds ends the loop there: nothing is broadcast over it. */
  lemma FoundMeansDone(rounds: nat -> Round, known: set<string>, last: nat, j: nat)
    requires 1 <= j <= last && j <= From(rounds, known, 1, last).attempts
    requires !rounds(j).response.ok && InDoubt(rounds(j).response) && rounds(j).before.Some?
    ensures From(rounds, known, 1, last) == Outcome(Reconciled(rounds(j).response.txHash, rounds(j).before.value), j)
  {
    StopsExactly(rounds, known, 1, last, j);
    ReachedFrom(rounds, known, 1, last, j);
  }

  lemma {:induction false} ReachedFrom(rounds: nat -> Round, known: set<string>, k: nat, last: nat, j: nat)
    requires k <= j <= last && j <= From(rounds, known, k, last).attempts
    ensures From(rounds, known, k, last) == From(rounds, known, j, last)
    decreases j - k
  {
    if k < j {
      StopsExactly(rounds, known, k, last, k);
      ReachedFrom(rounds, known, k + 1, last, j);
    }
  }
}
