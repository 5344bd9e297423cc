/**
 Spend policies and their merge (packages/agent-keys/src/takeover.js). Policies arrive as
 loosely typed records, so a numeric field keeps the distinctions the code observes:
 absent, empty, blank, unparsable, number or numeral.
 */
module SpendPolicy {
  import opened Common

  datatype Raw = Missing | Empty | Blank | Junk | Num(n: int) | Str(n: int)

  datatype Mode = Unlimited | Limit | RequireApproval | InvalidMode

  datatype Policy = Policy(mode: Mode, maxPerTx: Raw, maxDaily: Raw, small: Raw, large: Raw)

  /** What the tiered check answers; Threw is an uncaught BigInt failure. */
  datatype Decision = Auto | Timelock | NeedsApproval | Denied | Threw

  const DEFAULT_SMALL := 10
  const DEFAULT_LARGE := 100
  const MAX_SAFE := 9007199254740991

  /** Nothing past a timelock lets the agent spend on its own. */
  function Rank(d: Decision): nat {
    match d case Auto => 0 case Timelock => 1 case _ => 2
  }

  // ---- Reading fields ----------------------------------------------------

  predicate Truthy(r: Raw) {
    match r case Missing => false case Empty => false case Num(n) => n != 0 case _ => true
  }

  /** BigInt(r); None where it throws. */
  function BigIntOf(r: Raw): Option<int> {
    match r
    case Missing => None
    case Junk => None
    case Empty => Some(0)
    case Blank => Some(0)
    case Num(n) => Some(n)
    case Str(n) => Some(n)
  }

  /** BigInt(r ?? 0). */
  function OrZero(r: Raw): Option<int> {
    if r.Missing? then Some(0) else BigIntOf(r)
  }

  /** BigInt(r || fallback). */
  function OrDefault(r: Raw, fallback: int): Option<int> {
    if Truthy(r) then BigIntOf(r) else Some(fallback)
  }

  /** What BigInt makes of a number's text. Past the safe range the text may stand for another
      integer, or, with an exponent, for none. */
  type Spelling = int -> Option<int>

  ghost predicate IsSpelling(w: Spelling) {
    forall n :: -MAX_SAFE <= n <= MAX_SAFE ==> w(n) == Some(n)
  }

  /** BigInt(String(r)), where BigInt(r) reads the number itself. */
  function Respelt(w: Spelling, r: Raw): Option<int> {
    if r.Num? then w(r.n) else BigIntOf(r)
  }

  /** A positive ceiling, by its text; anything else counts as no ceiling. */
  function CeilingOf(w: Spelling, r: Raw): (c: Option<int>)
    ensures c.Some? ==> c.value > 0
  {
    var v := Respelt(w, r);
    if v.Some? && v.value > 0 then v else None
  }

  predicate Unsafe(r: Raw) {
    r.Num? && !(-MAX_SAFE <= r.n <= MAX_SAFE)
  }

  function ResolveMode(p: Policy): Mode {
    if p.mode.InvalidMode? then RequireApproval else p.mode
  }

  // ---- The checks --------------------------------------------------------

  datatype Base = BaseAllowed | BaseDenied | BaseApproval | BaseThrew

  /** Amount and total after the up-front screening; None is a denial. */
  function Screened(amount: Raw, spent: Raw): Option<(nat, nat)> {
    if Unsafe(amount) || Unsafe(spent) then None
    else if amount.Empty? || amount.Blank? || spent.Empty? || spent.Blank? then None
    else
      var a, s := OrZero(amount), OrZero(spent);
      if a.None? || s.None? || a.value < 0 || s.value < 0 then None else Some((a.value, s.value))
  }

  function CheckLimit(perTx: int, daily: int, a: nat, s: nat): Base {
    if perTx <= 0 && daily <= 0 then BaseDenied
    else if perTx > 0 && a > perTx then BaseDenied
    else if daily > 0 && s + a > daily then BaseDenied
    else BaseAllowed
  }

  function CheckSpendAllowed(p: Policy, amount: Raw, spent: Raw): Base {
    var v := Screened(amount, spent);
    if v.None? then BaseDenied else
      match ResolveMode(p)
      case Unlimited => BaseAllowed
      case Limit =>
        var perTx, daily := OrZero(p.maxPerTx), OrZero(p.maxDaily);
        if perTx.None? || daily.None? then BaseThrew
        else CheckLimit(perTx.value, daily.value, v.value.0, v.value.1)
      case _ => BaseApproval
  }

  function TierOf(a: int, small: int, large: int): Decision {
    if small >= large then NeedsApproval
    else if a < small then Auto
    else if a < large then Timelock
    else NeedsApproval
  }

  function ResolveTier(amount: Raw, small: Raw, large: Raw): Decision {
    var s, l := OrDefault(small, DEFAULT_SMALL), OrDefault(large, DEFAULT_LARGE);
    if s.None? || l.None? then Threw else
      var a := BigIntOf(amount);
      if a.None? then NeedsApproval else TierOf(a.value, s.value, l.value)
  }

  function CheckTiered(p: Policy, amount: Raw, spent: Raw): Decision {
    match CheckSpendAllowed(p, amount, spent)
    case BaseDenied => Denied
    case BaseApproval => NeedsApproval
    case BaseThrew => Threw
    case BaseAllowed =>
      if amount.Missing? then NeedsApproval else ResolveTier(amount, p.small, p.large)
  }

  /** How a threshold reads: the default stands in for a missing field, an empty text and the
      number zero, but not for a text of zero or blanks, and junk does not read at all. */
  lemma ThresholdReads(r: Raw, fallback: int)
    ensures OrDefault(r, fallback) == Some(fallback) <==>
      r.Missing? || r.Empty? || r == Num(0) || ((r.Num? || r.Str?) && r.n == fallback) || (r.Blank? && fallback == 0)
    ensures OrDefault(r, fallback).None? <==> r.Junk?
    ensures (r.Str? || (r.Num? && r.n != 0)) ==> OrDefault(r, fallback) == Some(r.n)
    ensures r.Blank? ==> OrDefault(r, fallback) == Some(0)
    ensures OrZero(r) == if r.Junk? then None else Some(NumberOf(r))
  {
  }

  /** Left out, or an integer that is not negative, and no number past the safe range. */
  predicate Readable(r: Raw) {
    r.Missing? || (r.Str? && r.n >= 0) || (r.Num? && 0 <= r.n <= MAX_SAFE)
  }

  /** An agent acts alone exactly on a parsed, non-negative amount below the small threshold,
      with the thresholds in order, in a mode that allows it: `limit` needs a ceiling, and the
      amount and the day's total must be within each that is set. */
  lemma AutoExactly(p: Policy, amount: Raw, spent: Raw)
    ensures CheckTiered(p, amount, spent) == Auto <==>
      && Readable(amount) && Readable(spent) && !amount.Missing?
      && InOrder(p) && amount.n < OrDefault(p.small, DEFAULT_SMALL).value
      && (p.mode.Unlimited? || (p.mode.Limit? && WithinCeilings(p, amount.n, if spent.Missing? then 0 else spent.n)))
  {
  }

  /** The mode and the ceilings allow it. */
  predicate Permitted(p: Policy, a: int, s: int) {
    p.mode.Unlimited? || (p.mode.Limit? && WithinCeilings(p, a, s))
  }

  function NumberOf(r: Raw): int {
    if r.Num? || r.Str? then r.n else 0
  }

  /** And every other answer: delayed exactly between the thresholds; denied on an unreadable
      amount or total, or past a ceiling; and the check fails on ceilings or, once the ceilings
      are passed, thresholds that do not parse. Approval is asked for in all cases left. */
  lemma DecidedExactly(p: Policy, amount: Raw, spent: Raw)
    ensures var d, a, s := CheckTiered(p, amount, spent), NumberOf(amount), NumberOf(spent);
      var readable := Readable(amount) && Readable(spent);
      var parse := OrZero(p.maxPerTx).Some? && OrZero(p.maxDaily).Some?;
      && (d == Timelock <==>
            && readable && !amount.Missing? && Permitted(p, a, s) && InOrder(p)
            && OrDefault(p.small, DEFAULT_SMALL).value <= a < OrDefault(p.large, DEFAULT_LARGE).value)
      && (d == Denied <==> !readable || (p.mode.Limit? && parse && !WithinCeilings(p, a, s)))
      && (d == Threw <==>
            && readable
            && ((p.mode.Limit? && !parse)
                || (Permitted(p, a, s) && !amount.Missing?
                    && (OrDefault(p.small, DEFAULT_SMALL).None? || OrDefault(p.large, DEFAULT_LARGE).None?))))
  {
  }

  predicate InOrder(p: Policy) {
    var s, l := OrDefault(p.small, DEFAULT_SMALL), OrDefault(p.large, DEFAULT_LARGE);
    s.Some? && l.Some? && s.value < l.value
  }

  predicate WithinCeilings(p: Policy, a: int, s: int) {
    var perTx, daily := OrZero(p.maxPerTx), OrZero(p.maxDaily);
    && perTx.Some? && daily.Some? && (perTx.value > 0 || daily.value > 0)
    && (perTx.value > 0 ==> a <= perTx.value) && (daily.value > 0 ==> s + a <= daily.value)
  }

  // ---- The merge ---------------------------------------------------------

  function Strictness(m: Mode): nat {
    match m case Unlimited => 0 case Limit => 1 case _ => 2
  }

  function StrictestCeiling(w: Spelling, a: Raw, b: Raw): Raw {
    match (CeilingOf(w, a), CeilingOf(w, b))
    case (None, None) => Missing
    case (Some(x), None) => Str(x)
    case (None, Some(y)) => Str(y)
    case (Some(x), Some(y)) => Str(if y < x then y else x)
  }

  function Seed(w: Spelling, bound: Raw, fallback: int): int {
    CeilingOf(w, bound).GetOr(fallback)
  }

  function PickThreshold(w: Spelling, bound: Raw, requested: Raw, fallback: int): Raw {
    var s := Seed(w, bound, fallback);
    match CeilingOf(w, requested)
    case Some(r) => Str(if r < s then r else s)
    case None => Str(s)
  }

  /** The policy the signing worker enforces; without an envelope-bound policy, the
      requested one as it stands. */
  function Combine(w: Spelling, bound: Option<Policy>, requested: Option<Policy>): (p: Option<Policy>)
    ensures bound.Some? ==> p.Some?
  {
    if bound.None? then requested else Some(Merge(w, bound.value, requested))
  }

  function Merge(w: Spelling, bound: Policy, requested: Option<Policy>): Policy {
    var r := requested.GetOr(Policy(InvalidMode, Missing, Missing, Missing, Missing));
    var mode :=
      if requested.Some? && Strictness(ResolveMode(r)) >= Strictness(ResolveMode(bound))
      then ResolveMode(r) else ResolveMode(bound);
    Policy(
      mode,
      if mode == Limit then StrictestCeiling(w, bound.maxPerTx, r.maxPerTx) else Missing,
      if mode == Limit then StrictestCeiling(w, bound.maxDaily, r.maxDaily) else Missing,
      PickThreshold(w, bound.small, r.small, DEFAULT_SMALL),
      PickThreshold(w, bound.large, r.large, DEFAULT_LARGE))
  }

  // ---- What the merge lets through ---------------------------------------

  /** A request that asks for nothing. */
  const NOTHING := Policy(Unlimited, Missing, Missing, Missing, Missing)

  predicate IsCap(w: Spelling, r: Raw) {
    Respelt(w, r).Some? && Respelt(w, r).value > 0
  }

  /** Within the field's text, where that is positive. */
  predicate KeptTo(w: Spelling, r: Raw, x: int) {
    IsCap(w, r) ==> x <= Respelt(w, r).value
  }

  /** Below the bound's text or its default, and below the request's. */
  predicate BelowBoth(w: Spelling, bound: Raw, requested: Raw, fallback: int, x: int) {
    && KeptTo(w, bound, x + 1) && (!IsCap(w, bound) ==> x < fallback)
    && KeptTo(w, requested, x + 1)
  }

  /** What either party says holds: no approval asked for, every positive ceiling kept to and
      one given where either limits, and thresholds in order with the amount below the large
      ones. */
  ghost predicate BothLetThrough(w: Spelling, b: Policy, r: Policy, a: int, s: int) {
    && (b.mode.Unlimited? || b.mode.Limit?) && (r.mode.Unlimited? || r.mode.Limit?)
    && (b.mode.Limit? || r.mode.Limit? ==>
          && (IsCap(w, b.maxPerTx) || IsCap(w, b.maxDaily) || IsCap(w, r.maxPerTx) || IsCap(w, r.maxDaily))
          && KeptTo(w, b.maxPerTx, a) && KeptTo(w, r.maxPerTx, a)
          && KeptTo(w, b.maxDaily, s + a) && KeptTo(w, r.maxDaily, s + a))
    && (exists m ::
          !BelowBoth(w, b.small, r.small, DEFAULT_SMALL, m) && BelowBoth(w, b.large, r.large, DEFAULT_LARGE, m))
    && BelowBoth(w, b.large, r.large, DEFAULT_LARGE, a)
  }

  lemma PickedMeans(w: Spelling, bound: Raw, requested: Raw, fallback: int, x: int)
    requires fallback > 0
    ensures var t := PickThreshold(w, bound, requested, fallback);
      && t.Str? && OrDefault(t, 0) == Some(t.n) && OrDefault(t, fallback) == Some(t.n) && t.n > 0
      && (x < t.n <==> BelowBoth(w, bound, requested, fallback, x))
  {
  }

  lemma OrderMeans(w: Spelling, b: Policy, r: Policy)
    ensures PickThreshold(w, b.small, r.small, DEFAULT_SMALL).n < PickThreshold(w, b.large, r.large, DEFAULT_LARGE).n
        <==> exists m :: !BelowBoth(w, b.small, r.small, DEFAULT_SMALL, m)
                         && BelowBoth(w, b.large, r.large, DEFAULT_LARGE, m)
  {
    var small := PickThreshold(w, b.small, r.small, DEFAULT_SMALL).n;
    var large := PickThreshold(w, b.large, r.large, DEFAULT_LARGE).n;
    PickedMeans(w, b.small, r.small, DEFAULT_SMALL, small);
    PickedMeans(w, b.large, r.large, DEFAULT_LARGE, small);
    if m :| !BelowBoth(w, b.small, r.small, DEFAULT_SMALL, m) && BelowBoth(w, b.large, r.large, DEFAULT_LARGE, m) {
      PickedMeans(w, b.small, r.small, DEFAULT_SMALL, m);
      PickedMeans(w, b.large, r.large, DEFAULT_LARGE, m);
    }
  }

  lemma CeilingMeans(w: Spelling, a: Raw, b: Raw, x: int)
    ensures var c := StrictestCeiling(w, a, b);
      && OrZero(c).Some? && (OrZero(c).value > 0 <==> IsCap(w, a) || IsCap(w, b))
      && (OrZero(c).value > 0 ==> (x <= OrZero(c).value <==> KeptTo(w, a, x) && KeptTo(w, b, x)))
  {
  }

  lemma PermittedMeans(w: Spelling, b: Policy, requested: Option<Policy>, a: int, s: int)
    ensures var r := requested.GetOr(NOTHING);
      Permitted(Merge(w, b, requested), a, s) <==>
        && (b.mode.Unlimited? || b.mode.Limit?) && (r.mode.Unlimited? || r.mode.Limit?)
        && (b.mode.Limit? || r.mode.Limit? ==>
              && (IsCap(w, b.maxPerTx) || IsCap(w, b.maxDaily) || IsCap(w, r.maxPerTx) || IsCap(w, r.maxDaily))
              && KeptTo(w, b.maxPerTx, a) && KeptTo(w, r.maxPerTx, a)
              && KeptTo(w, b.maxDaily, s + a) && KeptTo(w, r.maxDaily, s + a))
  {
    var r := requested.GetOr(NOTHING);
    CeilingMeans(w, b.maxPerTx, r.maxPerTx, a);
    CeilingMeans(w, b.maxDaily, r.maxDaily, s + a);
  }

  /** The merge lets a payment through, at once or delayed, exactly when both policies do, and
      at once exactly when it is also below both small thresholds. It never fails. */
  lemma MergedExactly(w: Spelling, bound: Policy, requested: Option<Policy>, amount: Raw, spent: Raw)
    ensures var d := CheckTiered(Combine(w, Some(bound), requested).value, amount, spent);
      var r, a, s := requested.GetOr(NOTHING), NumberOf(amount), NumberOf(spent);
      && (d == Auto || d == Timelock <==>
            && Readable(amount) && Readable(spent) && !amount.Missing?
            && BothLetThrough(w, bound, r, a, s))
      && (d == Auto ==> BelowBoth(w, bound.small, r.small, DEFAULT_SMALL, a))
      && (d == Timelock ==> !BelowBoth(w, bound.small, r.small, DEFAULT_SMALL, a))
      && d != Threw
  {
    var m, r, a := Merge(w, bound, requested), requested.GetOr(NOTHING), NumberOf(amount);
    assert m.small == PickThreshold(w, bound.small, r.small, DEFAULT_SMALL);
    assert m.large == PickThreshold(w, bound.large, r.large, DEFAULT_LARGE);
    AutoExactly(m, amount, spent);
    DecidedExactly(m, amount, spent);
    PermittedMeans(w, bound, requested, a, NumberOf(spent));
    PickedMeans(w, bound.small, r.small, DEFAULT_SMALL, a);
    PickedMeans(w, bound.large, r.large, DEFAULT_LARGE, a);
    OrderMeans(w, bound, r);
    CeilingMeans(w, bound.maxPerTx, r.maxPerTx, a);
    CeilingMeans(w, bound.maxDaily, r.maxDaily, a);
  }

  // ---- When merging only tightens ---------------------------------------

  function SmallSeed(w: Spelling, p: Policy): int {
    Seed(w, p.small, DEFAULT_SMALL)
  }

  function LargeSeed(w: Spelling, p: Policy): int {
    Seed(w, p.large, DEFAULT_LARGE)
  }

  function Lower(a: int, b: Option<int>): int {
    if b.Some? && b.value < a then b.value else a
  }

  /** The largest amount that the merge lets an agent spend, at most with a delay. */
  function Top(w: Spelling, p: Policy): int {
    if ResolveMode(p) == Limit
    then Lower(Lower(LargeSeed(w, p) - 1, CeilingOf(w, p.maxPerTx)), CeilingOf(w, p.maxDaily))
    else LargeSeed(w, p) - 1
  }

  /** The largest that it lets the agent spend at once. */
  function AutoTop(w: Spelling, p: Policy): int {
    Lower(Lower(Top(w, p), Some(SmallSeed(w, p) - 1)), Some(LargeSeed(w, p) - 2))
  }

  /** The bound lets an agent spend those amounts as freely itself. */
  predicate SafeThresholds(w: Spelling, p: Policy) {
    InOrder(p) && Top(w, p) < OrDefault(p.large, DEFAULT_LARGE).value
        && AutoTop(w, p) < OrDefault(p.small, DEFAULT_SMALL).value
  }

  /** Its ceilings parse, there is one, the daily one's text is no larger than it, and the
      other one is no smaller than what the merge lets through. */
  predicate SafeCeilings(w: Spelling, p: Policy) {
    var perTx, daily, text := OrZero(p.maxPerTx), OrZero(p.maxDaily), CeilingOf(w, p.maxDaily);
    && perTx.Some? && daily.Some? && (perTx.value > 0 || daily.value > 0)
    && (daily.value > 0 ==> text.Some? && text.value <= daily.value)
    && (perTx.value > 0 ==> Top(w, p) <= perTx.value)
  }

  /** Either the bound never lets the agent act alone, or its merged tiers are always
      inverted, or what it says of itself bounds what its texts say. */
  predicate SafeBound(w: Spelling, bound: Policy) {
    || ResolveMode(bound) == RequireApproval
    || LargeSeed(w, bound) == 1
    || (SafeThresholds(w, bound) && (ResolveMode(bound) == Limit ==> SafeCeilings(w, bound)))
  }

  ghost predicate Tightens(w: Spelling, bound: Policy, requested: Option<Policy>, amount: Raw, spent: Raw) {
    var effective := Combine(w, Some(bound), requested).value;
    Rank(CheckTiered(effective, amount, spent)) >= Rank(CheckTiered(bound, amount, spent))
  }

  ghost predicate AlwaysTightens(w: Spelling, bound: Policy) {
    forall requested, amount, spent :: Tightens(w, bound, requested, amount, spent)
  }

  /** What the merge of any request lets through, by the bound's texts alone. */
  predicate Reachable(w: Spelling, bound: Policy, a: int, s: int) {
    && 0 <= a < LargeSeed(w, bound) && 0 <= s
    && (ResolveMode(bound) == Limit ==>
          && (CeilingOf(w, bound.maxPerTx).Some? ==> a <= CeilingOf(w, bound.maxPerTx).value)
          && (CeilingOf(w, bound.maxDaily).Some? ==> s + a <= CeilingOf(w, bound.maxDaily).value))
  }

  lemma MergedThresholds(w: Spelling, bound: Policy, requested: Option<Policy>)
    ensures var m := Merge(w, bound, requested);
      && m.small.Str? && 1 <= m.small.n <= SmallSeed(w, bound)
      && m.large.Str? && 1 <= m.large.n <= LargeSeed(w, bound)
  {
  }

  lemma MergedCeiling(w: Spelling, a: Raw, b: Raw)
    ensures CeilingOf(w, a).Some? ==>
      StrictestCeiling(w, a, b).Str? && 0 < StrictestCeiling(w, a, b).n <= CeilingOf(w, a).value
  {
  }

  /** What the merge lets through at all is reachable. */
  lemma PassedIsReachable(w: Spelling, bound: Policy, requested: Option<Policy>, amount: Raw, spent: Raw)
    requires Rank(CheckTiered(Merge(w, bound, requested), amount, spent)) < 2
    ensures Screened(amount, spent).Some? && !amount.Missing?
    ensures var (a, s) := Screened(amount, spent).value;
      ResolveMode(bound) != RequireApproval && Reachable(w, bound, a, s) && BigIntOf(amount) == Some(a)
  {
    var m := Merge(w, bound, requested);
    var r := requested.GetOr(Policy(InvalidMode, Missing, Missing, Missing, Missing));
    MergedThresholds(w, bound, requested);
    MergedCeiling(w, bound.maxPerTx, r.maxPerTx);
    MergedCeiling(w, bound.maxDaily, r.maxDaily);
  }

  lemma ReachableIsBelow(w: Spelling, bound: Policy, a: int, s: int)
    requires Reachable(w, bound, a, s)
    ensures a <= Top(w, bound)
  {
  }

  /** A safe bound allows whatever is reachable. */
  lemma ReachableIsAllowed(w: Spelling, bound: Policy, amount: Raw, spent: Raw)
    requires ResolveMode(bound) == Limit ==> SafeCeilings(w, bound)
    requires ResolveMode(bound) != RequireApproval && Screened(amount, spent).Some?
    requires var (a, s) := Screened(amount, spent).value; Reachable(w, bound, a, s)
    ensures CheckSpendAllowed(bound, amount, spent).BaseAllowed?
  {
    var (a, s) := Screened(amount, spent).value;
    ReachableIsBelow(w, bound, a, s);
  }

  lemma SafeBoundTightens(w: Spelling, bound: Policy, requested: Option<Policy>, amount: Raw, spent: Raw)
    requires SafeBound(w, bound)
    ensures Tightens(w, bound, requested, amount, spent)
  {
    var m := Merge(w, bound, requested);
    MergedThresholds(w, bound, requested);
    if Rank(CheckTiered(m, amount, spent)) < 2 {
      PassedIsReachable(w, bound, requested, amount, spent);
      var (a, s) := Screened(amount, spent).value;
      ReachableIsBelow(w, bound, a, s);
      ReachableIsAllowed(w, bound, amount, spent);
    }
  }

  /** The freest request for one payment: no per-transaction ceiling, room for it in the day,
      and the small threshold given. */
  function FreeRequest(bound: Policy, a: int, s: int, small: int): Policy {
    Policy(ResolveMode(bound), Missing, Str(s + a + 1), Str(small), Missing)
  }

  /** Under it, what is reachable is let through, at once below the small threshold. */
  lemma ReachedBy(w: Spelling, bound: Policy, a: int, s: int, small: int)
    requires ResolveMode(bound) != RequireApproval && Reachable(w, bound, a, s)
    requires 1 <= small <= SmallSeed(w, bound) && small < LargeSeed(w, bound)
    ensures CheckTiered(Merge(w, bound, Some(FreeRequest(bound, a, s, small))), Str(a), Str(s))
         == if a < small then Auto else Timelock
  {
    var m := Merge(w, bound, Some(FreeRequest(bound, a, s, small)));
    assert m.small == Str(small) && m.large == Str(LargeSeed(w, bound));
    assert CheckSpendAllowed(m, Str(a), Str(s)).BaseAllowed?;
  }

  /** A payment that is reachable but that the bound denies. */
  lemma Denies(w: Spelling, bound: Policy) returns (a: int, s: int)
    requires ResolveMode(bound) == Limit && !SafeCeilings(w, bound) && LargeSeed(w, bound) > 1
    ensures Reachable(w, bound, a, s) && Rank(CheckTiered(bound, Str(a), Str(s))) == 2
  {
    a, s := 0, 0;
    var perTx, daily, text := OrZero(bound.maxPerTx), OrZero(bound.maxDaily), CeilingOf(w, bound.maxDaily);
    if perTx.Some? && daily.Some? && (perTx.value > 0 || daily.value > 0) {
      if daily.value > 0 && (text.None? || text.value > daily.value) {
        s := if text.None? then daily.value + 1 else text.value;
      } else {
        a := Top(w, bound);
      }
    }
  }

  /** A payment that is reachable, at once below `small`, but that the bound's own tiers hold
      back more. */
  lemma Delays(w: Spelling, bound: Policy) returns (a: int, small: int)
    requires ResolveMode(bound) != RequireApproval && !SafeThresholds(w, bound) && LargeSeed(w, bound) > 1
    ensures Reachable(w, bound, a, 0) && 1 <= small <= SmallSeed(w, bound) && small < LargeSeed(w, bound)
    ensures Rank(CheckTiered(bound, Str(a), Str(0))) > if a < small then 0 else 1
  {
    a, small := 0, 1;
    if InOrder(bound) {
      if Top(w, bound) >= OrDefault(bound.large, DEFAULT_LARGE).value {
        a := Top(w, bound);
      } else {
        a := AutoTop(w, bound);
        small := a + 1;
      }
    }
  }

  lemma UnsafeBoundLoosens(w: Spelling, bound: Policy) returns (requested: Policy, amount: Raw, spent: Raw)
    requires !SafeBound(w, bound)
    ensures !Tightens(w, bound, Some(requested), amount, spent)
  {
    var a, s, small := 0, 0, 1;
    if ResolveMode(bound) == Limit && !SafeCeilings(w, bound) {
      a, s := Denies(w, bound);
    } else {
      a, small := Delays(w, bound);
    }
    requested, amount, spent := FreeRequest(bound, a, s, small), Str(a), Str(s);
    ReachedBy(w, bound, a, s, small);
  }

  /** Merging never loosens the bound, whatever is requested, exactly for safe bounds,
      however numbers past the safe range are spelt. */
  lemma MergeTightensExactly(w: Spelling, bound: Policy)
    ensures AlwaysTightens(w, bound) <==> SafeBound(w, bound)
  {
    if SafeBound(w, bound) {
      forall requested, amount, spent ensures Tightens(w, bound, requested, amount, spent) {
        SafeBoundTightens(w, bound, requested, amount, spent);
      }
    } else {
      var requested, amount, spent := UnsafeBoundLoosens(w, bound);
    }
  }

  predicate Safe(r: Raw) {
    r.Num? ==> -MAX_SAFE <= r.n <= MAX_SAFE
  }

  /** Every number in the policy is in the safe range. */
  predicate AllSafe(p: Policy) {
    Safe(p.maxPerTx) && Safe(p.maxDaily) && Safe(p.small) && Safe(p.large)
  }

  predicate ProperThresholds(p: Policy) {
    InOrder(p) && 0 < OrDefault(p.small, DEFAULT_SMALL).value
  }

  predicate ProperCeilings(p: Policy) {
    var perTx, daily := OrZero(p.maxPerTx), OrZero(p.maxDaily);
    perTx.Some? && daily.Some? && (perTx.value > 0 || daily.value > 0)
  }

  /** Without such numbers a bound is safe exactly when it never lets the agent act alone, its
      tiers are always inverted, or its thresholds are positive and in order and a `limit` has
      a ceiling. */
  lemma SafeBoundPlainly(w: Spelling, bound: Policy)
    requires IsSpelling(w) && AllSafe(bound)
    ensures SafeBound(w, bound) <==>
      || ResolveMode(bound) == RequireApproval
      || CeilingOf(w, bound.large) == Some(1)
      || (ProperThresholds(bound) && (ResolveMode(bound) == Limit ==> ProperCeilings(bound)))
  {
    SameText(w, bound.maxPerTx);
    SameText(w, bound.maxDaily);
    SameText(w, bound.small);
    SameText(w, bound.large);
  }

  lemma SameText(w: Spelling, r: Raw)
    requires IsSpelling(w) && Safe(r)
    ensures Respelt(w, r) == BigIntOf(r)
  {
    if r.Num? {
      var n := r.n;
      assert w(n) == Some(n);
    }
  }

  /** Past that range a bound with all in order may still be loosened. The text of the number
      2^60 is rounded up, and with it the threshold. */
  lemma RoundedThresholdLoosens(w: Spelling)
    requires w(1152921504606846976) == Some(1152921504606847000)
    ensures var bound := Policy(Unlimited, Missing, Missing, Num(1152921504606846976), Str(2000000000000000000));
      ProperThresholds(bound) && !Tightens(w, bound, None, Str(1152921504606846980), Str(0))
  {
    var n := 1152921504606846976;
    assert w(n) == Some(1152921504606847000);
  }

  /** The text of the number 10^21 has an exponent, so as a daily ceiling the merge drops it. */
  lemma LargeNumberLoosens(w: Spelling, bound: Policy)
    requires ResolveMode(bound) == Limit && ProperThresholds(bound) && ProperCeilings(bound)
    requires OrZero(bound.maxDaily).value > 0 && Respelt(w, bound.maxDaily).None? && LargeSeed(w, bound) > 1
    ensures !AlwaysTightens(w, bound)
  {
    MergeTightensExactly(w, bound);
  }

  /** The merged policy has the stricter mode, ceilings only in a `limit`, and both thresholds. */
  lemma MergedFields(w: Spelling, bound: Policy, requested: Option<Policy>)
    ensures var m, r := Combine(w, Some(bound), requested).value, requested.GetOr(NOTHING);
      && (m.mode.RequireApproval? <==>
            !(bound.mode.Unlimited? || bound.mode.Limit?) || !(r.mode.Unlimited? || r.mode.Limit?))
      && (m.mode.Unlimited? <==> bound.mode.Unlimited? && r.mode.Unlimited?) && !m.mode.InvalidMode?
      && (!m.mode.Limit? ==> m.maxPerTx.Missing? && m.maxDaily.Missing?)
      && m.small.Str? && m.large.Str?
    ensures Combine(w, None, requested) == requested
  {
  }

  /** Merging the result with the bound again changes nothing. */
  lemma MergeIdempotent(w: Spelling, bound: Policy, requested: Option<Policy>)
    ensures var effective := Combine(w, Some(bound), requested);
      Combine(w, Some(bound), effective) == effective
  {
  }

  // ---- The takeover guard ------------------------------------------------

  datatype Guard = Commit | RollBack | GuardThrew

  /** None where a ceiling does not parse. */
  function Loosened(before: Raw, after: Raw): Option<bool> {
    var b, a := OrZero(before), OrZero(after);
    if b.None? || a.None? then None
    else Some(b.value != 0 && (a.value == 0 || a.value > b.value))
  }

  function TakeoverGuard(before: Policy, after: Policy): Guard {
    if ResolveMode(before) != ResolveMode(after) then RollBack
    else if ResolveMode(after) == RequireApproval then RollBack
    else if ResolveMode(after) == Limit then
      var perTx := Loosened(before.maxPerTx, after.maxPerTx);
      if perTx.None? then GuardThrew
      else if perTx.value then RollBack
      else
        var daily := Loosened(before.maxDaily, after.maxDaily);
        if daily.None? then GuardThrew else if daily.value then RollBack else Commit
    else Commit
  }

  /** Within what it was, as the guard reads ceilings: zero is none. */
  predicate GuardTightens(before: int, after: int) {
    before == 0 || (after != 0 && after <= before)
  }

  /** The guard commits exactly when the mode stays, allows spending, and a `limit` has parsed
      ceilings that are no looser; it fails only on ceilings that do not parse. */
  lemma GuardCommitsExactly(before: Policy, after: Policy)
    ensures var p, d := OrZero(before.maxPerTx), OrZero(before.maxDaily);
      var p', d' := OrZero(after.maxPerTx), OrZero(after.maxDaily);
      && (TakeoverGuard(before, after) == Commit <==>
            && before.mode == after.mode && (after.mode.Unlimited? || after.mode.Limit?)
            && (after.mode.Limit? ==>
                  && p.Some? && p'.Some? && GuardTightens(p.value, p'.value)
                  && d.Some? && d'.Some? && GuardTightens(d.value, d'.value)))
      && (TakeoverGuard(before, after) == GuardThrew ==>
            before.mode.Limit? && after.mode.Limit? && (p.None? || p'.None? || d.None? || d'.None?))
  {
  }

  /** Every spend the later policy allows, the earlier one allowed. */
  ghost predicate NoMorePower(before: Policy, after: Policy) {
    forall amount, spent :: CheckSpendAllowed(after, amount, spent).BaseAllowed? ==>
      CheckSpendAllowed(before, amount, spent).BaseAllowed?
  }

  /** What a committed pair of limit policies must still satisfy: the guard reads a zero
      ceiling as looser than any other and a negative one as stricter, the spend check
      reads both as no ceiling, and no ceiling at all as a denial. */
  predicate CeilingsCompare(before: Policy, after: Policy)
    requires ResolveMode(before) == Limit && TakeoverGuard(before, after) == Commit
  {
    var p, d := OrZero(before.maxPerTx).value, OrZero(before.maxDaily).value;
    var p', d' := OrZero(after.maxPerTx).value, OrZero(after.maxDaily).value;
    || (p' <= 0 && d' <= 0)
    || (
      && (p > 0 || d > 0)
      && (p > 0 ==> p' > 0 || d' <= p)
      && (d > 0 ==> d' > 0))
  }

  lemma GuardedSpend(before: Policy, after: Policy, amount: Raw, spent: Raw)
    requires ResolveMode(before) == Limit && TakeoverGuard(before, after) == Commit
    requires CeilingsCompare(before, after)
    ensures CheckSpendAllowed(after, amount, spent).BaseAllowed? ==>
      CheckSpendAllowed(before, amount, spent).BaseAllowed?
  {
  }

  /** A spend the later policy gained when the ceilings do not compare. */
  lemma GainedSpend(before: Policy, after: Policy) returns (amount: Raw, spent: Raw)
    requires ResolveMode(before) == Limit && TakeoverGuard(before, after) == Commit
    requires !CeilingsCompare(before, after)
    ensures CheckSpendAllowed(after, amount, spent).BaseAllowed?
    ensures !CheckSpendAllowed(before, amount, spent).BaseAllowed?
  {
    var p, d := OrZero(before.maxPerTx).value, OrZero(before.maxDaily).value;
    var p', d' := OrZero(after.maxPerTx).value, OrZero(after.maxDaily).value;
    if p <= 0 && d <= 0 {
      amount, spent := Str(0), Str(0);
    } else if p > 0 && p' <= 0 && d' > p {
      amount, spent := Str(p + 1), Str(0);
    } else {
      amount, spent := Str(0), Str(d + 1);
    }
  }

  /** Committing under the guard means no more spending power exactly when the ceilings
      of a limit policy compare; other modes carry no ceilings. */
  lemma GuardExactly(before: Policy, after: Policy)
    requires TakeoverGuard(before, after) == Commit
    ensures NoMorePower(before, after) <==> (ResolveMode(before) == Limit ==> CeilingsCompare(before, after))
  {
    if ResolveMode(before) == Limit {
      if CeilingsCompare(before, after) {
        forall amount, spent ensures CheckSpendAllowed(after, amount, spent).BaseAllowed? ==>
            CheckSpendAllowed(before, amount, spent).BaseAllowed? {
          GuardedSpend(before, after, amount, spent);
        }
      } else {
        var amount, spent := GainedSpend(before, after);
      }
    }
  }
}
