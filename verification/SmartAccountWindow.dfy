/**
 How far the account's spend window can be stretched: twice the daily ceiling within one
 window length is reached under every limited policy, and a preview can roll the window.
 */
module SmartAccountWindow {
  import opened Common
  import opened SmartAccount
  import opened SmartAccountRuns

  // ---- An action no deny-list holds --------------------------------------

  function Letters(n: nat): string {
    seq(n, _ => 'a')
  }

  lemma {:induction false} LettersAreNormal(n: nat)
    ensures NormalizeAction(Letters(n)) == Letters(n)
    decreases n
  {
    if n > 0 {
      assert Letters(n)[1..] == Letters(n - 1);
      LettersAreNormal(n - 1);
      assert Letters(n) == ['a'] + Letters(n - 1);
    }
  }

  lemma {:induction false} LongerThanAll(names: set<string>) returns (n: nat)
    ensures forall x | x in names :: |x| < n
    decreases |names|
  {
    n := 0;
    if names != {} {
      var x :| x in names;
      n := LongerThanAll(names - {x});
      n := if |x| < n then n else |x| + 1;
    }
  }

  lemma UndeniedName(names: set<string>) returns (name: string)
    ensures NormalizeAction(name) !in names
  {
    var n := LongerThanAll(names);
    LettersAreNormal(n);
    name := Letters(n);
  }

  // ---- A run that spends twice -------------------------------------------

  const ID := "s"

  function Grant(max: nat, until: int): Registration {
    Registration("a", None, Some("e"), Some(1), Some(until),
        Whitelist(None, None, None, None, None), Int(max), Int(2 * max))
  }

  function Ask(name: string, until: int, nonce: nat, amount: nat): Request {
    Request(Some(Payload(true, "a", 1, until, name, name, "", "", "", "", Int(nonce), Int(amount))),
            Int(amount), ID, Int(nonce), true, true)
  }

  /** The account part way: one session, this much spent, and the window as given. */
  ghost predicate Stage(a: Account, max: nat, until: int, nonce: nat, spent: nat) {
    && !a.frozen && !a.paused && ID in a.sessions
    && a.sessions[ID] == Session("a", None, Some("e"), 1, until,
        Whitelist(None, None, None, None, None), max, 2 * max, true, nonce, spent)
  }

  lemma CommitStep(cfg: Config, sys: Sys, req: Request, now: int)
    requires Vetted(cfg, sys.a, req, now) && Bound(sys.a.sessions[req.sessionId], req, now)
    requires Affordable(cfg, sys.a, sys.a.sessions[req.sessionId], req.payload.value.amount.v, now)
    ensures var id, nonce, amount := req.sessionId, req.nonce.v, req.payload.value.amount.v;
      var a := Commit(cfg, Rolled(cfg, sys.a, now), id, nonce, amount, now);
      Step(cfg, sys, DoExecute(req, now)) == sys.(a := a, commits := sys.commits
        + [Entry(id, nonce, amount, now, now, a.windowStart.value, sys.a.sessions[id].maxPerTx)])
  {
    ExecutedExactly(cfg, sys.a, req, now);
    AdmittedExactly(cfg, sys.a, req, now);
    BoundExactly(sys.a.sessions[req.sessionId], req, now);
  }

  lemma StageCommits(cfg: Config, sys: Sys, name: string, max: nat, until: int, nonce: nat, spent: nat,
                     amount: nat, now: int)
    requires Stage(sys.a, max, until, nonce, spent) && NormalizeAction(name) !in cfg.escalation + cfg.allowance
    requires now < until && amount <= max && spent + amount <= 2 * max
    requires cfg.policy.Limited? ==>
        (if WindowOver(cfg, sys.a, now) then 0 else sys.a.spentInWindow) + amount <= cfg.policy.maxDaily
    ensures var next := Step(cfg, sys, DoExecute(Ask(name, until, nonce + 1, amount), now));
      && Stage(next.a, max, until, nonce + 1, spent + amount)
      && |next.commits| == |sys.commits| + 1 && next.commits[..|sys.commits|] == sys.commits
      && next.commits[|sys.commits|].at == now && next.commits[|sys.commits|].amount == amount
      && (var opens := sys.a.windowStart.None? || (cfg.policy.Limited? && WindowOver(cfg, sys.a, now));
          next.a.windowStart == Some(if opens then now else sys.a.windowStart.value))
      && (cfg.policy.Limited? ==>
            next.a.spentInWindow == (if WindowOver(cfg, sys.a, now) then 0 else sys.a.spentInWindow) + amount)
  {
    CommitStep(cfg, sys, Ask(name, until, nonce + 1, amount), now);
  }

  ghost predicate IsFresh(sys: Sys) {
    sys.a == FRESH && sys.commits == []
  }

  lemma Registers(cfg: Config, sys: Sys, max: nat, until: int)
    requires IsFresh(sys) && until > 1
    ensures var next := Step(cfg, sys, DoRegister(cfg.owner, ID, Grant(max, until), 1));
      Stage(next.a, max, until, 0, 0) && next.commits == [] && next.a.windowStart.None? && next.a.spentInWindow == 0
  {
  }

  function Spend(name: string, w: int, nonce: nat, amount: nat, now: int): Event {
    DoExecute(Ask(name, w + 2, nonce, amount), now)
  }

  /** Nothing at first opens the window; the ceiling goes out as it ends, and again as the
      next one begins. */
  function Twice(cfg: Config, name: string): seq<Event>
    requires Capped(cfg)
  {
    var max, w := cfg.policy.maxDaily, cfg.dayWindowMs;
    [DoRegister(cfg.owner, ID, Grant(max, w + 2), 1)]
    + ([Spend(name, w, 1, 0, 1)] + ([Spend(name, w, 2, max, w)] + ([Spend(name, w, 3, max, w + 1)] + [])))
  }

  lemma RunCons(cfg: Config, sys: Sys, e: Event, rest: seq<Event>)
    ensures Run(cfg, sys, [e] + rest) == Run(cfg, Step(cfg, sys, e), rest)
  {
    assert ([e] + rest)[1..] == rest;
  }

  lemma AtomicCons(e: Event, rest: seq<Event>, clock: int)
    requires e.DoExecute? || e.DoRegister?
    requires (e.DoExecute? ==> clock <= e.now) && Atomic(rest, Later(clock, e))
    ensures Atomic([e] + rest, clock)
  {
    assert ([e] + rest)[1..] == rest;
  }

  lemma TwiceIsAtomic(cfg: Config, name: string)
    requires Capped(cfg)
    ensures Atomic(Twice(cfg, name), 1)
  {
    var max, w := cfg.policy.maxDaily, cfg.dayWindowMs;
    var last := [Spend(name, w, 3, max, w + 1)] + [];
    AtomicCons(Spend(name, w, 3, max, w + 1), [], w);
    AtomicCons(Spend(name, w, 2, max, w), last, 1);
    AtomicCons(Spend(name, w, 1, 0, 1), [Spend(name, w, 2, max, w)] + last, 1);
    AtomicCons(DoRegister(cfg.owner, ID, Grant(max, w + 2), 1),
               [Spend(name, w, 1, 0, 1)] + ([Spend(name, w, 2, max, w)] + last), 1);
  }

  /** The last two commits, over an open window with nothing in it. */
  lemma LastTwo(cfg: Config, sys: Sys, name: string)
    requires Capped(cfg) && NormalizeAction(name) !in cfg.escalation + cfg.allowance
    requires Stage(sys.a, cfg.policy.maxDaily, cfg.dayWindowMs + 2, 1, 0) && |sys.commits| == 1
    requires sys.a.windowStart == Some(1) && sys.a.spentInWindow == 0
    ensures var max, w := cfg.policy.maxDaily, cfg.dayWindowMs;
      var cs := Run(cfg, sys, [Spend(name, w, 2, max, w)] + ([Spend(name, w, 3, max, w + 1)] + [])).commits;
      |cs| == 3 && cs[1].at == w && cs[2].at == w + 1 && cs[1].amount == cs[2].amount == max
  {
    var max, w := cfg.policy.maxDaily, cfg.dayWindowMs;
    var e, f := Spend(name, w, 2, max, w), Spend(name, w, 3, max, w + 1);
    StageCommits(cfg, sys, name, max, w + 2, 1, 0, max, w);
    var mid := Step(cfg, sys, e);
    StageCommits(cfg, mid, name, max, w + 2, 2, max, max, w + 1);
    var end := Step(cfg, mid, f);
    assert end.commits[1] == mid.commits[1];
    RunCons(cfg, sys, e, [f] + []);
    RunCons(cfg, mid, f, []);
  }

  lemma FirstTwo(cfg: Config, sys: Sys, name: string)
    requires Capped(cfg) && NormalizeAction(name) !in cfg.escalation + cfg.allowance && IsFresh(sys)
    ensures var max, w := cfg.policy.maxDaily, cfg.dayWindowMs;
      var s1 := Step(cfg, sys, DoRegister(cfg.owner, ID, Grant(max, w + 2), 1));
      var s2 := Step(cfg, s1, Spend(name, w, 1, 0, 1));
      Stage(s2.a, max, w + 2, 1, 0) && |s2.commits| == 1 && s2.a.windowStart == Some(1) && s2.a.spentInWindow == 0
  {
    var max, w := cfg.policy.maxDaily, cfg.dayWindowMs;
    Registers(cfg, sys, max, w + 2);
    StageCommits(cfg, Step(cfg, sys, DoRegister(cfg.owner, ID, Grant(max, w + 2), 1)), name, max, w + 2, 0, 0, 0, 1);
  }

  lemma TwiceCommits(cfg: Config, sys: Sys, name: string)
    requires Capped(cfg) && NormalizeAction(name) !in cfg.escalation + cfg.allowance && IsFresh(sys)
    ensures var max, w, cs := cfg.policy.maxDaily, cfg.dayWindowMs, Run(cfg, sys, Twice(cfg, name)).commits;
      |cs| == 3 && cs[1].at == w && cs[2].at == w + 1 && cs[1].amount == cs[2].amount == max
  {
    var max, w := cfg.policy.maxDaily, cfg.dayWindowMs;
    var d, e := DoRegister(cfg.owner, ID, Grant(max, w + 2), 1), Spend(name, w, 1, 0, 1);
    var rest := [Spend(name, w, 2, max, w)] + ([Spend(name, w, 3, max, w + 1)] + []);
    FirstTwo(cfg, sys, name);
    LastTwo(cfg, Step(cfg, Step(cfg, sys, d), e), name);
    RunTwo(cfg, sys, d, e, rest);
  }

  lemma RunTwo(cfg: Config, sys: Sys, d: Event, e: Event, rest: seq<Event>)
    ensures Run(cfg, sys, [d] + ([e] + rest)) == Run(cfg, Step(cfg, Step(cfg, sys, d), e), rest)
  {
    RunCons(cfg, sys, d, [e] + rest);
    RunCons(cfg, Step(cfg, sys, d), e, rest);
  }

  lemma SumOfThree(cs: seq<Entry>, from: int, to: int)
    requires |cs| == 3 && from <= cs[1].at <= to && from <= cs[2].at <= to
    ensures SpentBetween(cs, from, to) >= cs[1].amount + cs[2].amount
  {
    assert cs[..2][..1] == cs[..1] && cs[..2][1] == cs[1];
  }

  /** What a run spends in one window length from a moment on. */
  function Span(cfg: Config, es: seq<Event>, from: int): nat {
    SpentBetween(Run(cfg, INITIAL, es).commits, from, from + cfg.dayWindowMs)
  }

  /** The bound of twice the daily ceiling is reached under every limited policy, by
      uninterrupted calls within one window length. */
  lemma TwiceIsReached(cfg: Config) returns (es: seq<Event>, from: int)
    requires Capped(cfg)
    ensures Atomic(es, 1) && Span(cfg, es, from) == 2 * cfg.policy.maxDaily
  {
    var name := UndeniedName(cfg.escalation + cfg.allowance);
    es, from := Twice(cfg, name), cfg.dayWindowMs;
    TwiceIsAtomic(cfg, name);
    TwiceCommits(cfg, INITIAL, name);
    SumOfThree(Run(cfg, INITIAL, es).commits, from, from + cfg.dayWindowMs);
    SpendCeilings(cfg, es, 1, from);
  }

  /** Commits within any interval of one window length stay within the daily ceiling itself. */
  ghost predicate OnceBounds(cfg: Config)
    requires Capped(cfg)
  {
    forall es, clock, from :: Atomic(es, clock) ==> Span(cfg, es, from) <= cfg.policy.maxDaily
  }

  /** So the ceiling bounds a day only when it is zero. */
  lemma OnceBoundsExactly(cfg: Config)
    requires Capped(cfg)
    ensures OnceBounds(cfg) <==> cfg.policy.maxDaily == 0
  {
    if cfg.policy.maxDaily == 0 {
      forall es, clock, from ensures Atomic(es, clock) ==> Span(cfg, es, from) <= cfg.policy.maxDaily {
        if Atomic(es, clock) {
          SpendCeilings(cfg, es, clock, from);
        }
      }
    } else {
      var es, from := TwiceIsReached(cfg);
    }
  }

  // ---- A preview that changes the account --------------------------------

  /** A preview of nothing, one window length after a commit, under any limited policy. */
  lemma PreviewCanRoll(cfg: Config) returns (a: Account, req: Request, now: int)
    requires Capped(cfg)
    ensures a.spentInWindow == cfg.policy.maxDaily
    ensures Preview(cfg, a, req, now).1.Ok?
    ensures Preview(cfg, a, req, now).0 == a.(windowStart := Some(now), spentInWindow := 0) != a
  {
    var max, w := cfg.policy.maxDaily, cfg.dayWindowMs;
    var name := UndeniedName(cfg.escalation + cfg.allowance);
    var free := Whitelist(None, None, None, None, None);
    var s := Session("a", None, Some("e"), 1, w + 2, free, max, 2 * max, true, 1, max);
    a := Account(false, false, map[ID := s], Some(1), max, 1);
    req, now := Ask(name, w + 2, 2, 0), w + 1;
    AdmittedExactly(cfg, a, req, now);
    PreviewChangesExactly(cfg, a, req, now);
  }
}
