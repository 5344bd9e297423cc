/**
 Any number of interleaved payment evaluations by one agent under one `limit` policy. Each
 reads the settled total, then what is reserved, then decides and reserves, then signs; the
 settled total may lag, and signing may fail and give the reservation back.
 */
module SpendLedgerRuns {
  import opened Common
  import opened SpendPolicy
  import opened SpendLedger

  datatype Eval =
    | ReadSpent(readAt: int, base: int)
    | ReadBoth(readAt: int, base: int, held: int)
    | Done

  datatype Status = Signing | Allowed | Released

  datatype Pay = Pay(amount: int, reservedAt: int, status: Status)

  /** `w` is how numbers read back from their text; `slack` bounds the time from reading the
      settled total to reserving. */
  datatype Setting = Setting(policy: Policy, w: Spelling, ttl: int, slack: int)

  datatype Sys = Sys(list: seq<Entry>, evals: seq<Eval>, pays: seq<Pay>, clock: int)

  datatype Action =
    | Read(at: int, base: int)
    | Look(i: nat, at: int)
    | Decide(i: nat, at: int, amount: Raw)
    | Sign(j: nat, at: int)
    | Fail(j: nat, at: int)

  /** A `limit` policy whose daily ceiling has a positive text, or none that parses. */
  ghost predicate Sound(g: Setting) {
    && g.policy.mode == Limit && g.slack >= 0
    && (ReservedUpTo(g).Some? ==> ReservedUpTo(g).value > 0)
  }

  /** The ceiling the reservation keeps: the text of maxDaily. */
  function ReservedUpTo(g: Setting): Option<int> {
    if g.policy.maxDaily.Missing? then Some(0) else Respelt(g.w, g.policy.maxDaily)
  }

  /** Nothing can be reserved under a ceiling that does not parse. */
  function MaxDaily(g: Setting): int {
    ReservedUpTo(g).GetOr(0)
  }

  // ---- Sums over payments ------------------------------------------------

  /** Which payments a total counts: those allowed; those allowed long enough ago that a
      reading at `at` must include them; or those allowed or still able to be. */
  datatype Which = Paid | SettledBy(at: int) | Possible(at: int)

  predicate Counts(g: Setting, which: Which, p: Pay) {
    match which
    case Paid => p.status == Allowed
    case SettledBy(at) => p.status == Allowed && p.reservedAt + g.ttl - g.slack <= at
    case Possible(at) => p.status == Allowed || (p.status == Signing && at < p.reservedAt + g.ttl - g.slack)
  }

  function Counted(g: Setting, which: Which, p: Pay): int {
    if Counts(g, which, p) then p.amount else 0
  }

  function TotalOf(g: Setting, pays: seq<Pay>, which: Which): int {
    if pays == [] then 0 else TotalOf(g, pays[..|pays| - 1], which) + Counted(g, which, pays[|pays| - 1])
  }

  // ---- Steps -------------------------------------------------------------

  /** What the surroundings promise: clocks do not run back; a settled total includes every
      allowed payment reserved ttl - slack ago or earlier, so allowing happens before that;
      reserving follows reading within slack; a failed signature releases before expiry. */
  ghost predicate Enabled(g: Setting, sys: Sys, a: Action) {
    && sys.clock <= a.at
    && match a
       case Read(at, base) => base >= TotalOf(g, sys.pays, SettledBy(at))
       case Look(i, at) => i < |sys.evals| && sys.evals[i].ReadSpent?
       case Decide(i, at, amount) => i < |sys.evals| && sys.evals[i].ReadBoth? && at <= sys.evals[i].readAt + g.slack
       case Sign(j, at) => j < |sys.pays| && sys.pays[j].status == Signing
           && at < sys.pays[j].reservedAt + g.ttl - g.slack
       case Fail(j, at) => j < |sys.pays| && sys.pays[j].status == Signing && at < sys.pays[j].reservedAt + g.ttl
  }

  /** Decide: the tier check sees the held total read earlier, the reservation the present one. */
  function Decision(g: Setting, sys: Sys, i: nat, at: int, amount: Raw): Sys
    requires Sound(g) && i < |sys.evals| && sys.evals[i].ReadBoth?
  {
    var e := sys.evals[i];
    var done := sys.(evals := sys.evals[i := Done], clock := at);
    if CheckTiered(g.policy, amount, Str(e.base + e.held)) != Auto then done else
      var a := OrZero(amount);
      if a.None? || ReservedUpTo(g).None? then done else
        var (list, reserved) := Reserve(sys.list, g.ttl, a.value, MaxDaily(g), e.base, at);
        if reserved then done.(list := list, pays := sys.pays + [Pay(a.value, at, Signing)])
        else done.(list := list)
  }

  function Step(g: Setting, sys: Sys, a: Action): Sys
    requires Sound(g)
    requires a.Look? || a.Decide? ==>
        a.i < |sys.evals| && (a.Look? ==> sys.evals[a.i].ReadSpent?) && (a.Decide? ==> sys.evals[a.i].ReadBoth?)
    requires a.Sign? || a.Fail? ==> a.j < |sys.pays|
  {
    match a
    case Read(at, base) => sys.(evals := sys.evals + [ReadSpent(at, base)], clock := at)
    case Look(i, at) =>
      var live := Live(sys.list, at);
      var e := sys.evals[i];
      sys.(list := live, evals := sys.evals[i := ReadBoth(e.readAt, e.base, Total(live))], clock := at)
    case Decide(i, at, amount) => Decision(g, sys, i, at, amount)
    case Sign(j, at) => sys.(pays := sys.pays[j := sys.pays[j].(status := Allowed)], clock := at)
    case Fail(j, at) =>
      sys.(list := Release(sys.list, sys.pays[j].amount),
           pays := sys.pays[j := sys.pays[j].(status := Released)], clock := at)
  }

  // ---- Reservations cover payments ---------------------------------------

  /** Amounts still held after time v. */
  function After(list: seq<Entry>, v: int): seq<int> {
    if list == [] then [] else
      After(list[..|list| - 1], v) + if list[|list| - 1].expiresAt > v then [list[|list| - 1].amount] else []
  }

  /** A payment as the reservation made for it, unless it was given back. */
  function Claim(g: Setting, p: Pay): seq<Entry> {
    if p.status == Released then [] else [Entry(p.amount, p.reservedAt + g.ttl)]
  }

  function Claims(g: Setting, pays: seq<Pay>): seq<Entry> {
    if pays == [] then [] else Claims(g, pays[..|pays| - 1]) + Claim(g, pays[|pays| - 1])
  }

  lemma {:induction false} AfterConcat(x: seq<Entry>, y: seq<Entry>, v: int)
    ensures After(x + y, v) == After(x, v) + After(y, v)
    decreases |y|
  {
    if y == [] {
      assert x + y == x;
    } else {
      assert (x + y)[..|x + y| - 1] == x + y[..|y| - 1];
      AfterConcat(x, y[..|y| - 1], v);
    }
  }

  lemma {:induction false} AfterLive(list: seq<Entry>, now: int, v: int)
    requires now <= v
    ensures After(Live(list, now), v) == After(list, v)
    decreases |list|
  {
    if list != [] {
      var init, last := list[..|list| - 1], list[|list| - 1];
      AfterLive(init, now, v);
      if last.expiresAt > now {
        assert Live(list, now)[..|Live(list, now)| - 1] == Live(init, now);
      }
    }
  }

  lemma {:induction false} ClaimsConcat(g: Setting, x: seq<Pay>, y: seq<Pay>)
    ensures Claims(g, x + y) == Claims(g, x) + Claims(g, y)
    decreases |y|
  {
    if y == [] {
      assert x + y == x;
    } else {
      assert (x + y)[..|x + y| - 1] == x + y[..|y| - 1];
      ClaimsConcat(g, x, y[..|y| - 1]);
    }
  }

  function Sum(xs: seq<int>): int {
    if xs == [] then 0 else Sum(xs[..|xs| - 1]) + xs[|xs| - 1]
  }

  lemma {:induction false} SumConcat(x: seq<int>, y: seq<int>)
    ensures Sum(x + y) == Sum(x) + Sum(y)
    decreases |y|
  {
    if y == [] {
      assert x + y == x;
    } else {
      assert (x + y)[..|x + y| - 1] == x + y[..|y| - 1];
      SumConcat(x, y[..|y| - 1]);
    }
  }

  ghost predicate NonNegative(xs: seq<int>) {
    forall i | 0 <= i < |xs| :: xs[i] >= 0
  }

  lemma {:induction false} SumNonNegative(e: seq<int>)
    requires NonNegative(e)
    ensures Sum(e) >= 0
    decreases |e|
  {
    if e != [] {
      SumNonNegative(e[..|e| - 1]);
    }
  }

  lemma TakeOut(e: seq<int>, a: int) returns (rest: seq<int>)
    requires a in multiset(e)
    ensures multiset(rest) == multiset(e) - multiset{a}
    ensures Sum(rest) + a == Sum(e)
    ensures NonNegative(e) ==> NonNegative(rest)
  {
    assert a in e;
    var i :| 0 <= i < |e| && e[i] == a;
    var x, y := e[..i], e[i + 1..];
    assert e == (x + [a]) + y;
    rest := x + y;
    SumConcat(x, y);
    SumConcat(x, [a]);
    SumConcat(x + [a], y);
  }

  /** Non-negative amounts contained in others sum to no more. */
  lemma {:induction false} SumContained(p: seq<int>, e: seq<int>)
    requires multiset(p) <= multiset(e) && NonNegative(e)
    ensures Sum(p) <= Sum(e)
    decreases |p|
  {
    if p == [] {
      SumNonNegative(e);
    } else {
      var a := p[|p| - 1];
      assert p == p[..|p| - 1] + [a];
      var rest := TakeOut(e, a);
      SumContained(p[..|p| - 1], rest);
    }
  }

  lemma {:induction false} TotalLive(list: seq<Entry>, now: int)
    ensures Total(Live(list, now)) == Sum(After(list, now))
    decreases |list|
  {
    if list != [] {
      var init, last := list[..|list| - 1], list[|list| - 1];
      TotalLive(init, now);
      if last.expiresAt > now {
        assert Live(list, now)[..|Live(list, now)| - 1] == Live(init, now);
        SumConcat(After(init, now), [last.amount]);
      } else {
        assert After(list, now) == After(init, now);
      }
    }
  }

  /** What one list holds after v is contained in what the other holds. */
  ghost predicate Within(x: seq<Entry>, y: seq<Entry>, v: int) {
    multiset(After(x, v)) <= multiset(After(y, v))
  }

  ghost predicate HoldsMoreOf(a: int, x: seq<Entry>, y: seq<Entry>, v: int) {
    multiset(After(x, v))[a] < multiset(After(y, v))[a]
  }

  ghost predicate CoveredAt(g: Setting, sys: Sys, v: int) {
    Within(Claims(g, sys.pays), sys.list, v)
  }

  ghost predicate Covered(g: Setting, sys: Sys) {
    forall v | v >= sys.clock :: CoveredAt(g, sys, v)
  }

  // ---- Giving a reservation back -----------------------------------------

  lemma {:induction false} AfterShrinks(list: seq<Entry>, at: int, v: int)
    requires at <= v
    ensures multiset(After(list, v)) <= multiset(After(list, at))
    decreases |list|
  {
    if list != [] {
      AfterShrinks(list[..|list| - 1], at, v);
    }
  }

  lemma {:induction false} CountStable(list: seq<Entry>, a: int, at: int, v: int)
    requires at <= v && forall e | e in list && e.amount == a :: e.expiresAt > v
    ensures multiset(After(list, v))[a] == multiset(After(list, at))[a]
    decreases |list|
  {
    if list != [] {
      assert list[|list| - 1] in list;
      CountStable(list[..|list| - 1], a, at, v);
    }
  }

  ghost predicate Ordered(list: seq<Entry>) {
    forall i, j | 0 <= i <= j < |list| :: list[i].expiresAt <= list[j].expiresAt
  }

  lemma ClaimsAt(g: Setting, pays: seq<Pay>, j: nat, q: Pay)
    requires j < |pays|
    ensures Claims(g, pays[j := q]) == Claims(g, pays[..j]) + Claim(g, q) + Claims(g, pays[j + 1..])
  {
    var u, w := pays[..j], pays[j + 1..];
    assert pays[j := q] == u + [q] + w;
    assert [q][..0] == [] && Claims(g, [q]) == [] + Claim(g, q) == Claim(g, q);
    ClaimsConcat(g, u, [q]);
    ClaimsConcat(g, u + [q], w);
  }

  lemma ClaimsAround(g: Setting, pays: seq<Pay>, j: nat)
    requires j < |pays| && pays[j].status == Signing
    ensures var p := pays[j];
      var cu, cw := Claims(g, pays[..j]), Claims(g, pays[j + 1..]);
      && Claims(g, pays) == cu + [Entry(p.amount, p.reservedAt + g.ttl)] + cw
      && Claims(g, pays[j := p.(status := Released)]) == cu + cw
  {
    var p := pays[j];
    ClaimsAt(g, pays, j, p);
    ClaimsAt(g, pays, j, p.(status := Released));
    assert pays[j := p] == pays;
    assert Claims(g, pays[..j]) + [] == Claims(g, pays[..j]);
  }

  lemma ClaimsSigned(g: Setting, pays: seq<Pay>, j: nat)
    requires j < |pays| && pays[j].status == Signing
    ensures Claims(g, pays[j := pays[j].(status := Allowed)]) == Claims(g, pays)
  {
    ClaimsAt(g, pays, j, pays[j]);
    ClaimsAt(g, pays, j, pays[j].(status := Allowed));
    assert pays[j := pays[j]] == pays;
  }

  /** Taking one copy of a from both sides, or from the containing side where it has more. */
  lemma TakeBoth(m: multiset<int>, n: multiset<int>, a: int, mine: bool, theirs: bool)
    requires m + (if mine then multiset{a} else multiset{}) <= n + (if theirs then multiset{a} else multiset{})
    requires theirs && !mine ==> m[a] <= n[a]
    ensures m <= n
  {
    forall x ensures m[x] <= n[x] {
      assert (m + (if mine then multiset{a} else multiset{}))[x]
          <= (n + (if theirs then multiset{a} else multiset{}))[x];
    }
  }

  /** If the entry given up outlives the claim, all entries of its amount do, and the claim
      was one of those they covered. */
  lemma Outlived(list: seq<Entry>, i: nat, cu: seq<Entry>, own: Entry, cw: seq<Entry>, at: int, v: int)
    requires i < |list| && i == FirstOf(list, own.amount) && Ordered(list)
    requires at < own.expiresAt
    requires Within(cu + [own] + cw, list, at)
    ensures own.expiresAt <= v < list[i].expiresAt ==> HoldsMoreOf(own.amount, cu + cw, list, v)
  {
    if own.expiresAt <= v < list[i].expiresAt {
      SplitAfter(cu, own, cw, at);
      SplitAfter(cu, own, cw, v);
      CountStable(list, own.amount, at, v);
      AfterShrinks(cu, at, v);
      AfterShrinks(cw, at, v);
    }
  }

  /** The entry removed may not be the one made for this claim, only one of the same amount
      that expires first; the entries left still cover the claims left. */
  lemma RemoveCovers(list: seq<Entry>, cu: seq<Entry>, own: Entry, cw: seq<Entry>, at: int, v: int)
    requires Ordered(list) && at < own.expiresAt && at <= v
    requires Within(cu + [own] + cw, list, at)
    requires Within(cu + [own] + cw, list, v)
    ensures Within(cu + cw, Release(list, own.amount), v)
  {
    var i := FirstOf(list, own.amount);
    FoundAt(list, cu, own, cw, at);
    Outlived(list, i, cu, own, cw, at, v);
    RemoveOne(list, i, cu, own, cw, v);
  }

  lemma RemoveOne(list: seq<Entry>, i: nat, cu: seq<Entry>, own: Entry, cw: seq<Entry>, v: int)
    requires i < |list| && list[i].amount == own.amount
    requires Within(cu + [own] + cw, list, v)
    requires own.expiresAt <= v < list[i].expiresAt ==> HoldsMoreOf(own.amount, cu + cw, list, v)
    ensures Within(cu + cw, list[..i] + list[i + 1..], v)
  {
    WithOwn(cu, own, cw, v);
    WithEntry(list, i, v);
    TakeBoth(multiset(After(cu + cw, v)), multiset(After(list[..i] + list[i + 1..], v)), own.amount,
             own.expiresAt > v, list[i].expiresAt > v);
  }

  /** A reservation still to be given back is there to be found. */
  lemma FoundAt(list: seq<Entry>, cu: seq<Entry>, own: Entry, cw: seq<Entry>, at: int)
    requires at < own.expiresAt
    requires Within(cu + [own] + cw, list, at)
    ensures FirstOf(list, own.amount) < |list|
  {
    if FirstOf(list, own.amount) == |list| {
      WithOwn(cu, own, cw, at);
      NoneAfter(list, own.amount, at);
    }
  }

  lemma WithOwn(cu: seq<Entry>, own: Entry, cw: seq<Entry>, v: int)
    ensures multiset(After(cu + [own] + cw, v))
         == multiset(After(cu + cw, v)) + if own.expiresAt > v then multiset{own.amount} else multiset{}
  {
    SplitAfter(cu, own, cw, v);
  }

  lemma WithEntry(list: seq<Entry>, i: nat, v: int)
    requires i < |list|
    ensures multiset(After(list, v))
         == multiset(After(list[..i] + list[i + 1..], v))
            + if list[i].expiresAt > v then multiset{list[i].amount} else multiset{}
  {
    assert list == list[..i] + [list[i]] + list[i + 1..];
    WithOwn(list[..i], list[i], list[i + 1..], v);
  }

  lemma ReleaseCovers(g: Setting, list: seq<Entry>, pays: seq<Pay>, j: nat, at: int, v: int)
    requires j < |pays| && pays[j].status == Signing && at < pays[j].reservedAt + g.ttl && at <= v
    requires Ordered(list)
    requires Within(Claims(g, pays), list, at)
    requires Within(Claims(g, pays), list, v)
    ensures Within(Claims(g, pays[j := pays[j].(status := Released)]), Release(list, pays[j].amount), v)
  {
    ClaimsAround(g, pays, j);
    RemoveCovers(list, Claims(g, pays[..j]), Entry(pays[j].amount, pays[j].reservedAt + g.ttl),
                 Claims(g, pays[j + 1..]), at, v);
  }

  /** The held amounts of a list around one of its entries. */
  lemma SplitAfter(x: seq<Entry>, e: Entry, y: seq<Entry>, v: int)
    ensures var own := if e.expiresAt > v then multiset{e.amount} else multiset{};
      && multiset(After(x + [e] + y, v)) == multiset(After(x, v)) + own + multiset(After(y, v))
      && multiset(After(x + y, v)) == multiset(After(x, v)) + multiset(After(y, v))
  {
    AfterConcat(x, [e], v);
    AfterConcat(x + [e], y, v);
    AfterConcat(x, y, v);
  }

  lemma {:induction false} NoneAfter(list: seq<Entry>, a: int, v: int)
    requires forall i | 0 <= i < |list| :: list[i].amount != a
    ensures a !in multiset(After(list, v))
    decreases |list|
  {
    if list != [] {
      NoneAfter(list[..|list| - 1], a, v);
    }
  }

  // ---- The invariant -----------------------------------------------------

  ghost predicate ListInv(g: Setting, list: seq<Entry>, clock: int) {
    && Ordered(list)
    && forall i | 0 <= i < |list| :: list[i].amount >= 0 && list[i].expiresAt <= clock + g.ttl
  }

  ghost predicate PaysInv(pays: seq<Pay>) {
    forall j | 0 <= j < |pays| :: pays[j].amount >= 0
  }

  /** What an evaluation read includes everything settled by then. */
  ghost predicate EvalInv(g: Setting, sys: Sys, e: Eval) {
    e.Done? || (e.readAt <= sys.clock && e.base >= TotalOf(g, sys.pays, SettledBy(e.readAt)))
  }

  ghost predicate EvalsInv(g: Setting, sys: Sys) {
    forall i | 0 <= i < |sys.evals| :: EvalInv(g, sys, sys.evals[i])
  }

  ghost predicate WithinBudget(g: Setting, sys: Sys)
    requires Sound(g)
  {
    TotalOf(g, sys.pays, Possible(sys.clock)) <= MaxDaily(g)
  }

  ghost predicate Inv(g: Setting, sys: Sys)
    requires Sound(g)
  {
    && ListInv(g, sys.list, sys.clock) && PaysInv(sys.pays) && EvalsInv(g, sys)
    && Covered(g, sys) && WithinBudget(g, sys)
  }

  // ---- Totals ------------------------------------------------------------

  lemma {:induction false} TotalSwap(g: Setting, pays: seq<Pay>, j: nat, q: Pay, which: Which)
    requires j < |pays|
    ensures TotalOf(g, pays[j := q], which)
         == TotalOf(g, pays, which) - Counted(g, which, pays[j]) + Counted(g, which, q)
    decreases |pays|
  {
    var n := |pays| - 1;
    if j == n {
      assert pays[j := q][..n] == pays[..n];
    } else {
      assert pays[j := q][..n] == pays[..n][j := q];
      TotalSwap(g, pays[..n], j, q, which);
    }
  }

  /** A total that counts less payment by payment is less. */
  lemma {:induction false} TotalBelow(g: Setting, pays: seq<Pay>, less: Which, more: Which)
    requires PaysInv(pays)
    requires forall j | 0 <= j < |pays| :: Counts(g, less, pays[j]) ==> Counts(g, more, pays[j])
    ensures TotalOf(g, pays, less) <= TotalOf(g, pays, more)
    decreases |pays|
  {
    if pays != [] {
      assert forall j | 0 <= j < |pays| - 1 :: pays[..|pays| - 1][j] == pays[j];
      TotalBelow(g, pays[..|pays| - 1], less, more);
    }
  }

  /** Whatever is possible now is either settled in an earlier reading or still reserved. */
  lemma {:induction false} PossibleIsHeldOrSettled(g: Setting, pays: seq<Pay>, readAt: int, at: int)
    requires Sound(g) && PaysInv(pays) && at <= readAt + g.slack
    ensures TotalOf(g, pays, Possible(at)) <= Sum(After(Claims(g, pays), at)) + TotalOf(g, pays, SettledBy(readAt))
    decreases |pays|
  {
    if pays != [] {
      var init, p := pays[..|pays| - 1], pays[|pays| - 1];
      assert forall j | 0 <= j < |init| :: init[j] == pays[j];
      PossibleIsHeldOrSettled(g, init, readAt, at);
      AfterConcat(Claims(g, init), Claim(g, p), at);
      SumConcat(After(Claims(g, init), at), After(Claim(g, p), at));
      HeldAlone(g, p, at);
    }
  }

  lemma HeldAlone(g: Setting, p: Pay, at: int)
    ensures Sum(After(Claim(g, p), at)) == if p.status != Released && at < p.reservedAt + g.ttl then p.amount else 0
  {
    if p.status != Released {
      assert Claim(g, p)[..0] == [];
      assert After(Claim(g, p), at) == if at < p.reservedAt + g.ttl then [p.amount] else [];
    }
  }

  // ---- Every step keeps the invariant ------------------------------------

  /** Pruning keeps order and every bound that held of all entries. */
  lemma {:induction false} LiveBounds(list: seq<Entry>, now: int, top: int)
    requires Ordered(list)
    requires forall i | 0 <= i < |list| :: list[i].amount >= 0 && list[i].expiresAt <= top
    ensures Ordered(Live(list, now))
    ensures forall i | 0 <= i < |Live(list, now)| ::
        Live(list, now)[i].amount >= 0 && Live(list, now)[i].expiresAt <= top
    decreases |list|
  {
    if list != [] {
      var init, last := list[..|list| - 1], list[|list| - 1];
      forall i | 0 <= i < |init| ensures init[i].amount >= 0 && init[i].expiresAt <= last.expiresAt {
        assert init[i] == list[i];
      }
      LiveBounds(init, now, last.expiresAt);
    }
  }

  lemma LiveInv(g: Setting, list: seq<Entry>, clock: int, now: int)
    requires ListInv(g, list, clock) && clock <= now
    ensures ListInv(g, Live(list, now), now)
  {
    LiveBounds(list, now, clock + g.ttl);
  }

  lemma OrderedWithout(list: seq<Entry>, i: nat)
    requires Ordered(list) && i < |list|
    ensures Ordered(list[..i] + list[i + 1..])
  {
    var rest := list[..i] + list[i + 1..];
    forall k, m | 0 <= k <= m < |rest| ensures rest[k].expiresAt <= rest[m].expiresAt {
      assert rest[k] == list[if k < i then k else k + 1];
      assert rest[m] == list[if m < i then m else m + 1];
    }
  }

  lemma WithoutInv(g: Setting, list: seq<Entry>, i: nat, clock: int, now: int)
    requires ListInv(g, list, clock) && clock <= now && i < |list|
    ensures ListInv(g, list[..i] + list[i + 1..], now)
  {
    OrderedWithout(list, i);
    var rest := list[..i] + list[i + 1..];
    forall k | 0 <= k < |rest| ensures rest[k].amount >= 0 && rest[k].expiresAt <= now + g.ttl {
      assert rest[k] == list[if k < i then k else k + 1];
    }
  }

  lemma ReleaseInv(g: Setting, list: seq<Entry>, amount: int, clock: int, now: int)
    requires ListInv(g, list, clock) && clock <= now
    ensures ListInv(g, Release(list, amount), now)
  {
    if FirstOf(list, amount) < |list| {
      WithoutInv(g, list, FirstOf(list, amount), clock, now);
    }
  }

  lemma {:induction false} AfterNonNegative(list: seq<Entry>, v: int)
    requires forall i | 0 <= i < |list| :: list[i].amount >= 0
    ensures NonNegative(After(list, v))
    decreases |list|
  {
    if list != [] {
      AfterNonNegative(list[..|list| - 1], v);
    }
  }

  /** Later, less remains possible. */
  lemma BudgetLater(g: Setting, sys: Sys, at: int)
    requires Sound(g) && PaysInv(sys.pays) && WithinBudget(g, sys) && sys.clock <= at
    ensures TotalOf(g, sys.pays, Possible(at)) <= MaxDaily(g)
  {
    TotalBelow(g, sys.pays, Possible(at), Possible(sys.clock));
  }

  /** With what it read and what is now reserved, an evaluation sees all that is possible. */
  lemma HeadroomIsReal(g: Setting, sys: Sys, i: nat, at: int)
    requires Sound(g) && Inv(g, sys) && i < |sys.evals| && sys.evals[i].ReadBoth?
    requires sys.clock <= at <= sys.evals[i].readAt + g.slack
    ensures TotalOf(g, sys.pays, Possible(at)) <= sys.evals[i].base + Total(Live(sys.list, at))
  {
    var e := sys.evals[i];
    assert EvalInv(g, sys, e);
    PossibleIsHeldOrSettled(g, sys.pays, e.readAt, at);
    assert CoveredAt(g, sys, at);
    AfterNonNegative(sys.list, at);
    SumContained(After(Claims(g, sys.pays), at), After(sys.list, at));
    TotalLive(sys.list, at);
  }

  lemma TotalAppend(g: Setting, pays: seq<Pay>, p: Pay, which: Which)
    ensures TotalOf(g, pays + [p], which) == TotalOf(g, pays, which) + Counted(g, which, p)
  {
    assert (pays + [p])[..|pays|] == pays;
  }

  lemma LiveCovers(g: Setting, sys: Sys, at: int, v: int)
    requires Covered(g, sys) && sys.clock <= at <= v
    ensures Within(Claims(g, sys.pays), Live(sys.list, at), v)
  {
    assert CoveredAt(g, sys, v);
    AfterLive(sys.list, at, v);
  }

  lemma BothGrow(claims: seq<Entry>, list: seq<Entry>, e: Entry, v: int)
    requires Within(claims, list, v)
    ensures Within(claims + [e], list + [e], v)
  {
    AfterConcat(claims, [e], v);
    AfterConcat(list, [e], v);
    var x, y, z := After(claims, v), After(list, v), After([e], v);
    assert multiset(x + z) == multiset(x) + multiset(z) && multiset(y + z) == multiset(y) + multiset(z);
  }

  lemma ClaimsAppend(g: Setting, pays: seq<Pay>, a: int, at: int)
    ensures Claims(g, pays + [Pay(a, at, Signing)]) == Claims(g, pays) + [Entry(a, at + g.ttl)]
  {
    assert (pays + [Pay(a, at, Signing)])[..|pays|] == pays;
  }

  /** A reservation made now covers the payment it is for, at any later time. */
  lemma ReserveCovers(g: Setting, sys: Sys, a: int, at: int, v: int)
    requires Covered(g, sys) && sys.clock <= at <= v
    ensures var list, pays := Live(sys.list, at) + [Entry(a, at + g.ttl)], sys.pays + [Pay(a, at, Signing)];
      Within(Claims(g, pays), list, v)
  {
    LiveCovers(g, sys, at, v);
    BothGrow(Claims(g, sys.pays), Live(sys.list, at), Entry(a, at + g.ttl), v);
    ClaimsAppend(g, sys.pays, a, at);
  }

  ghost predicate Ready(g: Setting, sys: Sys, a: Action) {
    Sound(g) && Inv(g, sys) && Enabled(g, sys, a)
  }

  /** What a decision that reserves `a` leaves behind, and the headroom it found. */
  ghost predicate Reserved(g: Setting, sys: Sys, i: nat, at: int, a: int, next: Sys)
    requires Sound(g) && i < |sys.evals| && sys.evals[i].ReadBoth?
  {
    && a >= 0 && next.list == Live(sys.list, at) + [Entry(a, at + g.ttl)]
    && next.pays == sys.pays + [Pay(a, at, Signing)]
    && sys.evals[i].base + Total(Live(sys.list, at)) + a <= MaxDaily(g)
  }

  /** The three shapes a decision can take. */
  ghost predicate Outcome(g: Setting, sys: Sys, i: nat, at: int, next: Sys)
    requires Sound(g) && i < |sys.evals| && sys.evals[i].ReadBoth?
  {
    && next.clock == at
    && (|| (next.list == sys.list && next.pays == sys.pays)
        || (next.list == Live(sys.list, at) && next.pays == sys.pays)
        || exists a :: Reserved(g, sys, i, at, a, next))
  }

  lemma DecisionShape(g: Setting, sys: Sys, i: nat, at: int, amount: Raw)
    requires Sound(g) && i < |sys.evals| && sys.evals[i].ReadBoth?
    ensures Outcome(g, sys, i, at, Decision(g, sys, i, at, amount))
  {
    var next := Decision(g, sys, i, at, amount);
    if next.pays != sys.pays {
      assert Reserved(g, sys, i, at, OrZero(amount).value, next);
    }
  }

  /** A decision within slack of its reading. */
  ghost predicate Decided(g: Setting, sys: Sys, i: nat, at: int, next: Sys) {
    && Sound(g) && Inv(g, sys) && i < |sys.evals| && sys.evals[i].ReadBoth?
    && sys.clock <= at <= sys.evals[i].readAt + g.slack
    && Outcome(g, sys, i, at, next)
  }

  lemma ListsDecision(g: Setting, sys: Sys, i: nat, at: int, next: Sys)
    requires Decided(g, sys, i, at, next)
    ensures ListInv(g, next.list, at) && PaysInv(next.pays)
  {
    LiveInv(g, sys.list, sys.clock, at);
    if next.pays != sys.pays {
      var a :| Reserved(g, sys, i, at, a, next);
    }
  }

  lemma CoverDecision(g: Setting, sys: Sys, i: nat, at: int, next: Sys, v: int)
    requires Decided(g, sys, i, at, next) && at <= v
    ensures CoveredAt(g, next, v)
  {
    assert CoveredAt(g, sys, v);
    LiveCovers(g, sys, at, v);
    if next.pays != sys.pays {
      var a :| Reserved(g, sys, i, at, a, next);
      ReserveCovers(g, sys, a, at, v);
    }
  }

  lemma BudgetDecision(g: Setting, sys: Sys, i: nat, at: int, next: Sys)
    requires Decided(g, sys, i, at, next)
    ensures WithinBudget(g, next)
  {
    BudgetLater(g, sys, at);
    if next.pays != sys.pays {
      var a :| Reserved(g, sys, i, at, a, next);
      HeadroomIsReal(g, sys, i, at);
      TotalAppend(g, sys.pays, Pay(a, at, Signing), Possible(at));
    }
  }

  lemma SettledDecision(g: Setting, sys: Sys, i: nat, at: int, next: Sys, readAt: int)
    requires Sound(g) && i < |sys.evals| && sys.evals[i].ReadBoth? && Outcome(g, sys, i, at, next)
    ensures TotalOf(g, next.pays, SettledBy(readAt)) == TotalOf(g, sys.pays, SettledBy(readAt))
  {
    if next.pays != sys.pays {
      var a :| Reserved(g, sys, i, at, a, next);
      TotalAppend(g, sys.pays, Pay(a, at, Signing), SettledBy(readAt));
    }
  }

  lemma ListsKept(g: Setting, sys: Sys, a: Action)
    requires Ready(g, sys, a)
    ensures ListInv(g, Step(g, sys, a).list, a.at) && PaysInv(Step(g, sys, a).pays)
  {
    match a
    case Read(at, base) =>
    case Look(i, at) => LiveInv(g, sys.list, sys.clock, at);
    case Decide(i, at, amount) =>
      DecisionShape(g, sys, i, at, amount);
      ListsDecision(g, sys, i, at, Decision(g, sys, i, at, amount));
    case Sign(j, at) =>
    case Fail(j, at) => ReleaseInv(g, sys.list, sys.pays[j].amount, sys.clock, at);
  }

  lemma CoverKept(g: Setting, sys: Sys, a: Action, v: int)
    requires Ready(g, sys, a) && a.at <= v
    ensures CoveredAt(g, Step(g, sys, a), v)
  {
    assert CoveredAt(g, sys, v) && CoveredAt(g, sys, a.at);
    match a
    case Read(at, base) =>
    case Look(i, at) => LiveCovers(g, sys, at, v);
    case Decide(i, at, amount) =>
      DecisionShape(g, sys, i, at, amount);
      CoverDecision(g, sys, i, at, Decision(g, sys, i, at, amount), v);
    case Sign(j, at) => ClaimsSigned(g, sys.pays, j);
    case Fail(j, at) => ReleaseCovers(g, sys.list, sys.pays, j, at, v);
  }

  lemma BudgetKept(g: Setting, sys: Sys, a: Action)
    requires Ready(g, sys, a)
    ensures WithinBudget(g, Step(g, sys, a))
  {
    BudgetLater(g, sys, a.at);
    match a
    case Read(at, base) =>
    case Look(i, at) =>
    case Decide(i, at, amount) =>
      DecisionShape(g, sys, i, at, amount);
      BudgetDecision(g, sys, i, at, Decision(g, sys, i, at, amount));
    case Sign(j, at) => TotalSwap(g, sys.pays, j, sys.pays[j].(status := Allowed), Possible(at));
    case Fail(j, at) => TotalSwap(g, sys.pays, j, sys.pays[j].(status := Released), Possible(at));
  }

  /** Nothing becomes settled in a reading already made. */
  lemma SettledKept(g: Setting, sys: Sys, a: Action, readAt: int)
    requires Sound(g) && Enabled(g, sys, a) && readAt <= sys.clock
    ensures TotalOf(g, Step(g, sys, a).pays, SettledBy(readAt)) == TotalOf(g, sys.pays, SettledBy(readAt))
  {
    match a
    case Read(at, base) =>
    case Look(i, at) =>
    case Decide(i, at, amount) =>
      DecisionShape(g, sys, i, at, amount);
      SettledDecision(g, sys, i, at, Decision(g, sys, i, at, amount), readAt);
    case Sign(j, at) => TotalSwap(g, sys.pays, j, sys.pays[j].(status := Allowed), SettledBy(readAt));
    case Fail(j, at) => TotalSwap(g, sys.pays, j, sys.pays[j].(status := Released), SettledBy(readAt));
  }

  /** An evaluation keeps what it read until it is done; a new one read enough. */
  lemma EvalShape(g: Setting, sys: Sys, a: Action, i: nat)
    requires Sound(g) && Enabled(g, sys, a) && i < |Step(g, sys, a).evals| && !Step(g, sys, a).evals[i].Done?
    ensures var e := Step(g, sys, a).evals[i];
      if i < |sys.evals| then !sys.evals[i].Done? && e.readAt == sys.evals[i].readAt && e.base == sys.evals[i].base
      else a.Read? && e == ReadSpent(a.at, a.base)
  {
  }

  lemma EvalKept(g: Setting, sys: Sys, a: Action, i: nat)
    requires Ready(g, sys, a) && i < |Step(g, sys, a).evals|
    ensures EvalInv(g, Step(g, sys, a), Step(g, sys, a).evals[i])
  {
    var e := Step(g, sys, a).evals[i];
    if !e.Done? {
      EvalShape(g, sys, a, i);
      if i < |sys.evals| {
        assert EvalInv(g, sys, sys.evals[i]);
        SettledKept(g, sys, a, e.readAt);
      }
    }
  }

  lemma EvalsKept(g: Setting, sys: Sys, a: Action)
    requires Ready(g, sys, a)
    ensures EvalsInv(g, Step(g, sys, a))
  {
    var next := Step(g, sys, a);
    forall i | 0 <= i < |next.evals| ensures EvalInv(g, next, next.evals[i]) {
      EvalKept(g, sys, a, i);
    }
  }

  lemma InvStep(g: Setting, sys: Sys, a: Action)
    requires Ready(g, sys, a)
    ensures Inv(g, Step(g, sys, a))
  {
    ListsKept(g, sys, a);
    EvalsKept(g, sys, a);
    BudgetKept(g, sys, a);
    forall v | v >= a.at ensures CoveredAt(g, Step(g, sys, a), v) {
      CoverKept(g, sys, a, v);
    }
  }

  // ---- What every run guarantees -----------------------------------------

  ghost predicate AllEnabled(g: Setting, sys: Sys, actions: seq<Action>)
    requires Sound(g)
    decreases |actions|
  {
    actions == [] || (Enabled(g, sys, actions[0]) && AllEnabled(g, Step(g, sys, actions[0]), actions[1..]))
  }

  ghost function Run(g: Setting, sys: Sys, actions: seq<Action>): Sys
    requires Sound(g) && AllEnabled(g, sys, actions)
    decreases |actions|
  {
    if actions == [] then sys else Run(g, Step(g, sys, actions[0]), actions[1..])
  }

  lemma {:induction false} InvRun(g: Setting, sys: Sys, actions: seq<Action>)
    requires Sound(g) && Inv(g, sys) && AllEnabled(g, sys, actions)
    ensures Inv(g, Run(g, sys, actions))
    decreases |actions|
  {
    if actions != [] {
      InvStep(g, sys, actions[0]);
      InvRun(g, Step(g, sys, actions[0]), actions[1..]);
    }
  }

  /** Whatever was reserved before the day's first evaluation, everything allowed during the
      day stays within the ceiling the reservations keep, however the evaluations interleave.
      That is the policy's own daily ceiling where its text reads back no larger. */
  lemma DailyCeiling(g: Setting, list: seq<Entry>, clock: int, actions: seq<Action>)
    requires Sound(g) && ListInv(g, list, clock)
    requires AllEnabled(g, Sys(list, [], [], clock), actions)
    ensures TotalOf(g, Run(g, Sys(list, [], [], clock), actions).pays, Paid) <= MaxDaily(g)
    ensures OrZero(g.policy.maxDaily).Some? && ReservedUpTo(g).GetOr(0) <= OrZero(g.policy.maxDaily).value ==>
      TotalOf(g, Run(g, Sys(list, [], [], clock), actions).pays, Paid) <= OrZero(g.policy.maxDaily).value
  {
    var sys := Sys(list, [], [], clock);
    InvRun(g, sys, actions);
    var end := Run(g, sys, actions);
    TotalBelow(g, end.pays, Paid, Possible(end.clock));
  }

  /** For a ceiling in the safe range, or given as text, the two are one. */
  lemma DailyCeilingPlainly(g: Setting, list: seq<Entry>, clock: int, actions: seq<Action>)
    requires g.policy.mode == Limit && g.slack >= 0 && IsSpelling(g.w) && Safe(g.policy.maxDaily)
    requires OrZero(g.policy.maxDaily).Some? && OrZero(g.policy.maxDaily).value > 0
    requires ListInv(g, list, clock)
    ensures Sound(g)
    ensures AllEnabled(g, Sys(list, [], [], clock), actions) ==>
      TotalOf(g, Run(g, Sys(list, [], [], clock), actions).pays, Paid) <= OrZero(g.policy.maxDaily).value
  {
    SameText(g.w, g.policy.maxDaily);
    if AllEnabled(g, Sys(list, [], [], clock), actions) {
      DailyCeiling(g, list, clock, actions);
    }
  }

  // ---- What an evaluation allows -----------------------------------------

  /** Alone on all that was read, with a text that parses, and fitting beside what is held. */
  ghost predicate MayReserve(g: Setting, list: seq<Entry>, base: int, held: int, at: int, amount: Raw)
    requires Sound(g)
  {
    && CheckTiered(g.policy, amount, Str(base + held)) == Auto && ReservedUpTo(g).Some?
    && base + Total(Live(list, at)) + NumberOf(amount) <= MaxDaily(g)
  }

  lemma AutoIsAnAmount(g: Setting, amount: Raw, spent: Raw)
    requires CheckTiered(g.policy, amount, spent) == Auto
    ensures OrZero(amount) == Some(NumberOf(amount))
  {
    AutoExactly(g.policy, amount, spent);
  }

  /** A decision reserves a payment exactly when the spend check lets the agent act alone on
      all that was read, and the amount fits beside what is held by then. */
  lemma DecidedExactly(g: Setting, sys: Sys, i: nat, at: int, amount: Raw)
    requires Sound(g) && i < |sys.evals| && sys.evals[i].ReadBoth?
    ensures var e, next, a := sys.evals[i], Decision(g, sys, i, at, amount), NumberOf(amount);
      && next.evals == sys.evals[i := Done] && next.clock == at
      && if MayReserve(g, sys.list, e.base, e.held, at, amount)
         then next.pays == sys.pays + [Pay(a, at, Signing)] && Total(next.list) == Total(Live(sys.list, at)) + a
         else next.pays == sys.pays && (next.list == sys.list || next.list == Live(sys.list, at))
  {
    var e := sys.evals[i];
    if CheckTiered(g.policy, amount, Str(e.base + e.held)) == Auto && ReservedUpTo(g).Some? {
      AutoReserves(g, sys, i, at, amount);
      ReservedExactly(sys.list, g.ttl, NumberOf(amount), MaxDaily(g), e.base, at);
    } else {
      OthersReserveNothing(g, sys, i, at, amount);
    }
  }

  lemma AutoReserves(g: Setting, sys: Sys, i: nat, at: int, amount: Raw)
    requires Sound(g) && i < |sys.evals| && sys.evals[i].ReadBoth? && ReservedUpTo(g).Some?
    requires CheckTiered(g.policy, amount, Str(sys.evals[i].base + sys.evals[i].held)) == Auto
    ensures var (list, reserved) := Reserve(sys.list, g.ttl, NumberOf(amount), MaxDaily(g), sys.evals[i].base, at);
      Decision(g, sys, i, at, amount)
      == sys.(evals := sys.evals[i := Done], clock := at, list := list,
              pays := if reserved then sys.pays + [Pay(NumberOf(amount), at, Signing)] else sys.pays)
    ensures MaxDaily(g) > 0
  {
    AutoIsAnAmount(g, amount, Str(sys.evals[i].base + sys.evals[i].held));
  }

  lemma OthersReserveNothing(g: Setting, sys: Sys, i: nat, at: int, amount: Raw)
    requires Sound(g) && i < |sys.evals| && sys.evals[i].ReadBoth?
    requires CheckTiered(g.policy, amount, Str(sys.evals[i].base + sys.evals[i].held)) != Auto || ReservedUpTo(g).None?
    ensures Decision(g, sys, i, at, amount) == sys.(evals := sys.evals[i := Done], clock := at)
  {
  }

  lemma {:induction false} LiveTwice(list: seq<Entry>, now: int)
    ensures Live(Live(list, now), now) == Live(list, now)
    decreases |list|
  {
    if list != [] {
      var init, last := list[..|list| - 1], list[|list| - 1];
      LiveTwice(init, now);
      if last.expiresAt > now {
        assert Live(list, now)[..|Live(list, now)| - 1] == Live(init, now);
      }
    }
  }

  lemma LookReads(g: Setting, sys: Sys, base: int)
    requires Sound(g)
    ensures var at, i := sys.clock, |sys.evals|;
      var read := Step(g, Step(g, sys, Read(at, base)), Look(i, at));
      && |read.evals| == i + 1 && read.evals[i] == ReadBoth(at, base, Total(Live(sys.list, at)))
      && read.pays == sys.pays && read.list == Live(sys.list, at) == Live(read.list, at)
  {
    LiveTwice(sys.list, sys.clock);
  }

  /** Without delay, an evaluation of a total ends in a payment exactly then. */
  lemma EvaluationCompletes(g: Setting, sys: Sys, base: int, amount: Raw)
    requires Sound(g)
    ensures var at, i, held := sys.clock, |sys.evals|, Total(Live(sys.list, sys.clock));
      var read := Step(g, Step(g, sys, Read(at, base)), Look(i, at));
      && |read.evals| == i + 1 && read.evals[i].ReadBoth?
      && var decided := Decision(g, read, i, at, amount);
      if MayReserve(g, sys.list, base, held, at, amount)
      then decided.pays == sys.pays + [Pay(NumberOf(amount), at, Signing)]
           && Step(g, decided, Sign(|sys.pays|, at)).pays == sys.pays + [Pay(NumberOf(amount), at, Allowed)]
      else decided.pays == sys.pays
  {
    var at, i := sys.clock, |sys.evals|;
    var read := Step(g, Step(g, sys, Read(at, base)), Look(i, at));
    LookReads(g, sys, base);
    DecidedExactly(g, read, i, at, amount);
  }

  /** A failure gives its amount back exactly when the entry in front of its amount has not
      expired; an expired one that is still there goes instead. */
  lemma FailFreesExactly(g: Setting, sys: Sys, j: nat, at: int, x: seq<Entry>, e: Entry, y: seq<Entry>)
    requires Sound(g) && j < |sys.pays| && sys.list == x + [e] + y
    requires e.amount == sys.pays[j].amount && forall d | d in x :: d.amount != e.amount
    ensures Total(Live(Step(g, sys, Fail(j, at)).list, at))
         == Total(Live(sys.list, at)) - if e.expiresAt > at then e.amount else 0
  {
    ReleasedExactly(x, e, y);
    assert Step(g, sys, Fail(j, at)).list == x + y;
    LiveConcat(x + [e], y, at);
    LiveConcat(x, [e], at);
    LiveConcat(x, y, at);
    assert [e][..0] == [];
    TotalConcat(Live(x, at) + Live([e], at), Live(y, at));
    TotalConcat(Live(x, at), Live([e], at));
    TotalConcat(Live(x, at), Live(y, at));
    TotalOne(e);
  }
}
