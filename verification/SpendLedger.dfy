/**
 The reservation ledger of the payment guardrail (packages/guardrail-x402/src/index.js):
 per agent, a list of reservations that count as spent until they expire.
 */
module SpendLedger {
  datatype Entry = Entry(amount: int, expiresAt: int)

  function Live(list: seq<Entry>, now: int): seq<Entry> {
    if list == [] then [] else
      var rest, last := Live(list[..|list| - 1], now), list[|list| - 1];
      if last.expiresAt > now then rest + [last] else rest
  }

  function Total(list: seq<Entry>): int {
    if list == [] then 0 else Total(list[..|list| - 1]) + list[|list| - 1].amount
  }

  /** The list afterwards, and whether the amount was reserved; expired entries go either way. */
  function Reserve(list: seq<Entry>, ttl: int, amount: int, max: int, base: int, now: int): (seq<Entry>, bool) {
    var live := Live(list, now);
    if max > 0 && base + Total(live) + amount > max then (live, false)
    else (live + [Entry(amount, now + ttl)], true)
  }

  /** The first reservation of this amount, expired or not; |list| if there is none. */
  function FirstOf(list: seq<Entry>, amount: int): (i: nat)
    ensures i <= |list|
    ensures i < |list| ==> list[i].amount == amount
    ensures forall j | 0 <= j < i :: list[j].amount != amount
  {
    if list == [] || list[0].amount == amount then 0 else 1 + FirstOf(list[1..], amount)
  }

  function Release(list: seq<Entry>, amount: int): seq<Entry> {
    var i := FirstOf(list, amount);
    if i < |list| then list[..i] + list[i + 1..] else list
  }

  // ---- What the list functions mean --------------------------------------

  /** Each entry that has not expired is kept, as often as it was there, and no other. */
  lemma {:induction false} LiveExactly(list: seq<Entry>, now: int, e: Entry)
    ensures multiset(Live(list, now))[e] == if e.expiresAt > now then multiset(list)[e] else 0
    decreases |list|
  {
    if list != [] {
      assert list == list[..|list| - 1] + [list[|list| - 1]];
      LiveExactly(list[..|list| - 1], now, e);
    }
  }

  /** And the order stays. */
  lemma {:induction false} LiveConcat(x: seq<Entry>, y: seq<Entry>, now: int)
    ensures Live(x + y, now) == Live(x, now) + Live(y, now)
    decreases |y|
  {
    if y == [] {
      assert x + y == x;
    } else {
      assert (x + y)[..|x + y| - 1] == x + y[..|y| - 1];
      LiveConcat(x, y[..|y| - 1], now);
    }
  }

  lemma {:induction false} TotalConcat(x: seq<Entry>, y: seq<Entry>)
    ensures Total(x + y) == Total(x) + Total(y)
    decreases |y|
  {
    if y == [] {
      assert x + y == x;
    } else {
      assert (x + y)[..|x + y| - 1] == x + y[..|y| - 1];
      TotalConcat(x, y[..|y| - 1]);
    }
  }

  lemma TotalOne(e: Entry)
    ensures Total([e]) == e.amount
  {
    assert [e][..0] == [];
  }

  /** An amount is reserved exactly when it fits a positive maximum beside what is already
      spent and held; then that much more is held, and otherwise no less or more. */
  lemma ReservedExactly(list: seq<Entry>, ttl: int, amount: int, max: int, base: int, now: int)
    ensures var (after, reserved) := Reserve(list, ttl, amount, max, base, now); var held := Total(Live(list, now));
      && (reserved <==> (max > 0 ==> base + held + amount <= max))
      && Total(after) == held + (if reserved then amount else 0)
  {
    TotalConcat(Live(list, now), [Entry(amount, now + ttl)]);
    TotalOne(Entry(amount, now + ttl));
  }

  /** What is held then is what had not expired, and the new entry for its time to live. */
  lemma ReservedEntries(list: seq<Entry>, ttl: int, amount: int, max: int, base: int, now: int, e: Entry)
    ensures var (after, reserved) := Reserve(list, ttl, amount, max, base, now);
      multiset(after)[e]
      == (if e.expiresAt > now then multiset(list)[e] else 0)
         + (if reserved && e == Entry(amount, now + ttl) then 1 else 0)
  {
    LiveExactly(list, now, e);
  }

  /** A release takes one entry of the amount away, the one in front of the others. */
  lemma ReleasedExactly(x: seq<Entry>, e: Entry, y: seq<Entry>)
    requires forall d | d in x :: d.amount != e.amount
    ensures Release(x + [e] + y, e.amount) == x + y
  {
    var list := x + [e] + y;
    assert list[|x|] == e && forall j | 0 <= j < |x| :: list[j] == x[j] && x[j] in x;
    assert FirstOf(list, e.amount) == |x|;
    assert list[..|x|] == x && list[|x| + 1..] == y;
  }

  lemma ReleasedNothing(list: seq<Entry>, amount: int)
    requires forall d | d in list :: d.amount != amount
    ensures Release(list, amount) == list
  {
    assert forall j | 0 <= j < |list| :: list[j] in list;
  }

  class Ledger {
    const ttlMs: int
    var entries: map<string, seq<Entry>>

    constructor (ttlMs: int)
      ensures this.ttlMs == ttlMs && entries == map[]
    {
      this.ttlMs := ttlMs;
      entries := map[];
    }

    function ListOf(agent: string): seq<Entry>
      reads this
    {
      if agent in entries then entries[agent] else []
    }

    twostate predicate OthersUnchanged(agent: string)
      reads this
    {
      forall other | other != agent :: ListOf(other) == old(ListOf(other))
    }

    method Prune(agent: string, now: int) returns (live: seq<Entry>)
      modifies this
      ensures live == ListOf(agent) == Live(old(ListOf(agent)), now)
      ensures OthersUnchanged(agent)
    {
      if agent !in entries {
        return [];
      }
      var list := entries[agent];
      live := [];
      for i := 0 to |list|
        invariant entries == old(entries)
        invariant live == Live(list[..i], now)
      {
        assert list[..i + 1][..i] == list[..i];
        if list[i].expiresAt > now {
          live := live + [list[i]];
        }
      }
      assert list[..|list|] == list;
      if |live| > 0 {
        entries := entries[agent := live];
      } else {
        entries := entries - {agent};
      }
    }

    method SumOf(list: seq<Entry>) returns (sum: int)
      ensures sum == Total(list)
    {
      sum := 0;
      for i := 0 to |list|
        invariant sum == Total(list[..i])
      {
        assert list[..i + 1][..i] == list[..i];
        sum := sum + list[i].amount;
      }
      assert list[..|list|] == list;
    }

    method Pending(agent: string, now: int) returns (held: int)
      modifies this
      ensures ListOf(agent) == Live(old(ListOf(agent)), now) && held == Total(ListOf(agent))
      ensures OthersUnchanged(agent)
    {
      var live := Prune(agent, now);
      held := SumOf(live);
    }

    method ReserveFor(agent: string, amount: int, max: int, base: int, now: int) returns (reserved: bool)
      modifies this
      ensures (ListOf(agent), reserved) == Reserve(old(ListOf(agent)), ttlMs, amount, max, base, now)
      ensures OthersUnchanged(agent)
    {
      var list := Prune(agent, now);
      var held := SumOf(list);
      if max > 0 && base + held + amount > max {
        return false;
      }
      entries := entries[agent := list + [Entry(amount, now + ttlMs)]];
      reserved := true;
    }

    method ReleaseFor(agent: string, amount: int)
      modifies this
      ensures ListOf(agent) == Release(old(ListOf(agent)), amount)
      ensures OthersUnchanged(agent)
    {
      if agent !in entries {
        return;
      }
      var list := entries[agent];
      var i := FirstOf(list, amount);
      if i < |list| {
        list := list[..i] + list[i + 1..];
      }
      if |list| == 0 {
        entries := entries - {agent};
      } else {
        entries := entries[agent := list];
      }
    }
  }
}
