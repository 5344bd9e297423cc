/**
 The shared key-value store (packages/agent-sdk/src/store-interface.js): versioned rows, an
 in-process backend that keeps them in insertion order, and the shared backend's retried
 read-modify-write.
 */
module SharedStore {
  import opened Common

  datatype Rec<V> = Rec(value: V, version: nat, updatedAt: int)

  datatype Row<V> = Row(key: string, rec: Rec<V>)

  // ---- Tables ------------------------------------------------------------

  ghost predicate Distinct<V>(rows: seq<Row<V>>) {
    forall i, j | 0 <= i < j < |rows| :: rows[i].key != rows[j].key
  }

  /** The row with this key; |rows| if there is none. */
  function IndexOf<V>(rows: seq<Row<V>>, key: string): (i: nat)
    ensures i <= |rows|
  {
    if rows == [] || rows[0].key == key then 0 else 1 + IndexOf(rows[1..], key)
  }

  function Find<V>(rows: seq<Row<V>>, key: string): Option<Rec<V>> {
    var i := IndexOf(rows, key);
    if i < |rows| then Some(rows[i].rec) else None
  }

  function VersionOf<V>(rec: Option<Rec<V>>): nat {
    match rec case None => 0 case Some(r) => r.version
  }

  function ValueOf<V>(rec: Option<Rec<V>>): Option<V> {
    match rec case None => None case Some(r) => Some(r.value)
  }

  /** A row changes in place; a new key goes last. */
  function Put<V>(rows: seq<Row<V>>, key: string, rec: Rec<V>): seq<Row<V>> {
    var i := IndexOf(rows, key);
    if i < |rows| then rows[i := Row(key, rec)] else rows + [Row(key, rec)]
  }

  function Without<V>(rows: seq<Row<V>>, i: nat): seq<Row<V>>
    requires i < |rows|
  {
    rows[..i] + rows[i + 1..]
  }

  function Remove<V>(rows: seq<Row<V>>, key: string): seq<Row<V>> {
    var i := IndexOf(rows, key);
    if i < |rows| then Without(rows, i) else rows
  }

  /** What purging everything older than `before` leaves; no key is exempt. */
  function Survivors<V>(rows: seq<Row<V>>, before: int): seq<Row<V>> {
    if rows == [] then [] else
      Survivors(rows[..|rows| - 1], before) + if Last(rows).rec.updatedAt < before then [] else [Last(rows)]
  }

  function Last<V>(rows: seq<Row<V>>): Row<V>
    requires rows != []
  {
    rows[|rows| - 1]
  }

  /** Keys with the prefix, in insertion order. */
  function Matching<V>(rows: seq<Row<V>>, prefix: string): seq<string> {
    if rows == [] then [] else (if prefix <= rows[0].key then [rows[0].key] else []) + Matching(rows[1..], prefix)
  }

  /** Without the first n rows of the prefix. */
  function DropFirst<V>(rows: seq<Row<V>>, prefix: string, n: int): seq<Row<V>> {
    if rows == [] || n <= 0 then rows
    else if prefix <= rows[0].key then DropFirst(rows[1..], prefix, n - 1)
    else [rows[0]] + DropFirst(rows[1..], prefix, n)
  }

  function Evicted<V>(rows: seq<Row<V>>, prefix: string, keepMax: int): seq<Row<V>> {
    DropFirst(rows, prefix, |Matching(rows, prefix)| - keepMax)
  }

  // ---- What a lookup sees afterwards -------------------------------------

  lemma {:induction false} IndexFacts<V>(rows: seq<Row<V>>, key: string)
    ensures var i := IndexOf(rows, key);
      && (i < |rows| ==> rows[i].key == key)
      && (forall j | 0 <= j < i :: rows[j].key != key)
    decreases |rows|
  {
    if rows != [] && rows[0].key != key {
      IndexFacts(rows[1..], key);
      forall j | 0 <= j < IndexOf(rows, key) ensures rows[j].key != key {
        if j > 0 {
          assert rows[j] == rows[1..][j - 1];
        }
      }
    }
  }

  lemma IndexIs<V>(rows: seq<Row<V>>, key: string, i: nat)
    requires i < |rows| && rows[i].key == key
    requires forall j | 0 <= j < i :: rows[j].key != key
    ensures IndexOf(rows, key) == i
  {
    IndexFacts(rows, key);
  }

  lemma RemoveMiddle<V>(x: seq<Row<V>>, row: Row<V>, y: seq<Row<V>>)
    requires forall j | 0 <= j < |x| :: x[j].key != row.key
    ensures Remove(x + [row] + y, row.key) == x + y
  {
    var all := x + [row] + y;
    assert forall j | 0 <= j < |x| :: all[j] == x[j];
    assert all[|x|] == row;
    IndexIs(all, row.key, |x|);
  }

  lemma DistinctTail<V>(rows: seq<Row<V>>)
    requires Distinct(rows) && rows != []
    ensures Distinct(rows[1..])
  {
    forall i, j | 0 <= i < j < |rows| - 1 ensures rows[1..][i].key != rows[1..][j].key {
      assert rows[1..][i] == rows[i + 1] && rows[1..][j] == rows[j + 1];
    }
  }

  lemma FindAt<V>(rows: seq<Row<V>>, i: nat)
    requires Distinct(rows) && i < |rows|
    ensures IndexOf(rows, rows[i].key) == i
  {
    IndexIs(rows, rows[i].key, i);
  }

  lemma FindIsIn<V>(rows: seq<Row<V>>, row: Row<V>)
    requires Distinct(rows)
    ensures row in rows <==> Find(rows, row.key) == Some(row.rec)
  {
    IndexFacts(rows, row.key);
    if row in rows {
      var i :| 0 <= i < |rows| && rows[i] == row;
      FindAt(rows, i);
    }
  }

  /** A lookup is decided by the rows: this one, or none with this key. */
  lemma FindIs<V>(rows: seq<Row<V>>, key: string, rec: Option<Rec<V>>)
    requires Distinct(rows)
    requires if rec.Some? then Row(key, rec.value) in rows else forall i | 0 <= i < |rows| :: rows[i].key != key
    ensures Find(rows, key) == rec
  {
    IndexFacts(rows, key);
    if rec.Some? {
      FindIsIn(rows, Row(key, rec.value));
    }
  }

  lemma PutDistinct<V>(rows: seq<Row<V>>, key: string, rec: Rec<V>)
    requires Distinct(rows)
    ensures Distinct(Put(rows, key, rec))
  {
    IndexFacts(rows, key);
  }

  lemma FindPut<V>(rows: seq<Row<V>>, key: string, rec: Rec<V>, other: string)
    requires Distinct(rows)
    ensures Distinct(Put(rows, key, rec))
    ensures Find(Put(rows, key, rec), other) == if other == key then Some(rec) else Find(rows, other)
  {
    IndexFacts(rows, key);
    IndexFacts(rows, other);
    PutDistinct(rows, key, rec);
    var after, i, j := Put(rows, key, rec), IndexOf(rows, key), IndexOf(rows, other);
    assert after[i] == Row(key, rec);
    assert j < |rows| && j != i ==> after[j] == rows[j];
    FindIs(after, other, if other == key then Some(rec) else Find(rows, other));
  }

  lemma RemoveDistinct<V>(rows: seq<Row<V>>, key: string)
    requires Distinct(rows)
    ensures Distinct(Remove(rows, key))
  {
    var after, i := Remove(rows, key), IndexOf(rows, key);
    forall a, b | 0 <= a < b < |after| ensures after[a].key != after[b].key {
      assert after[a] == rows[if a < i then a else a + 1];
      assert after[b] == rows[if b < i then b else b + 1];
    }
  }

  lemma FindRemove<V>(rows: seq<Row<V>>, key: string, other: string)
    requires Distinct(rows)
    ensures Distinct(Remove(rows, key))
    ensures Find(Remove(rows, key), other) == if other == key then None else Find(rows, other)
  {
    IndexFacts(rows, key);
    IndexFacts(rows, other);
    RemoveDistinct(rows, key);
    var after, i, j := Remove(rows, key), IndexOf(rows, key), IndexOf(rows, other);
    forall k | 0 <= k < |after| ensures after[k] == rows[if k < i then k else k + 1] && after[k].key != key {
    }
    assert j < |rows| && j != i ==> after[if j < i then j else j - 1] == rows[j];
    FindIs(after, other, if other == key then None else Find(rows, other));
  }

  lemma {:induction false} SurvivorIn<V>(rows: seq<Row<V>>, before: int, row: Row<V>)
    ensures row in Survivors(rows, before) <==> row in rows && row.rec.updatedAt >= before
    decreases |rows|
  {
    if rows != [] {
      assert rows == rows[..|rows| - 1] + [Last(rows)];
      SurvivorIn(rows[..|rows| - 1], before, row);
    }
  }

  lemma {:induction false} SurvivorsDistinct<V>(rows: seq<Row<V>>, before: int)
    requires Distinct(rows)
    ensures Distinct(Survivors(rows, before))
    decreases |rows|
  {
    if rows != [] {
      var init := rows[..|rows| - 1];
      SurvivorsDistinct(init, before);
      forall i | 0 <= i < |Survivors(init, before)| ensures Survivors(init, before)[i].key != Last(rows).key {
        SurvivorIn(init, before, Survivors(init, before)[i]);
      }
    }
  }

  /** Purging forgets exactly the rows last written before the limit, whatever their keys. */
  lemma FindSurvivor<V>(rows: seq<Row<V>>, before: int, key: string)
    requires Distinct(rows)
    ensures Distinct(Survivors(rows, before))
    ensures var was := Find(rows, key);
      Find(Survivors(rows, before), key) == if was.Some? && was.value.updatedAt >= before then was else None
  {
    SurvivorsDistinct(rows, before);
    var after := Survivors(rows, before);
    IndexFacts(after, key);
    IndexFacts(rows, key);
    if Find(after, key).Some? {
      var row := after[IndexOf(after, key)];
      SurvivorIn(rows, before, row);
      FindIsIn(rows, row);
    }
    if Find(rows, key).Some? {
      var row := rows[IndexOf(rows, key)];
      SurvivorIn(rows, before, row);
      FindIsIn(after, row);
    }
  }

  /** A table part way through a purge. */
  function Midway<V>(all: seq<Row<V>>, i: nat, before: int): seq<Row<V>>
    requires i <= |all|
  {
    Survivors(all[..i], before) + all[i..]
  }

  lemma MidwayStep<V>(all: seq<Row<V>>, i: nat, before: int)
    requires Distinct(all) && i < |all|
    ensures Midway(all, i + 1, before)
         == if all[i].rec.updatedAt < before then Remove(Midway(all, i, before), all[i].key) else Midway(all, i, before)
    ensures all[i].rec.updatedAt < before ==> |Midway(all, i + 1, before)| == |Midway(all, i, before)| - 1
  {
    var kept, row, rest := Survivors(all[..i], before), all[i], all[i + 1..];
    forall j | 0 <= j < |kept| ensures kept[j].key != row.key {
      SurvivorIn(all[..i], before, kept[j]);
    }
    RemoveMiddle(kept, row, rest);
    assert all[i..] == [row] + rest;
    assert Midway(all, i, before) == kept + [row] + rest;
    assert all[..i + 1][..i] == all[..i];
    assert Midway(all, i + 1, before) == (if row.rec.updatedAt < before then kept else kept + [row]) + rest;
  }

  lemma MidwayEnds<V>(all: seq<Row<V>>, before: int)
    ensures Midway(all, 0, before) == all && Midway(all, |all|, before) == Survivors(all, before)
  {
    assert all[..0] == [] && all[..|all|] == all;
  }

  // ---- Eviction ----------------------------------------------------------

  lemma {:induction false} MatchingIn<V>(rows: seq<Row<V>>, prefix: string, key: string)
    ensures key in Matching(rows, prefix) <==> prefix <= key && IndexOf(rows, key) < |rows|
    decreases |rows|
  {
    if rows != [] {
      MatchingIn(rows[1..], prefix, key);
    }
  }

  /** Dropping one more row deletes the next key of the prefix. */
  lemma {:induction false} DropNext<V>(rows: seq<Row<V>>, prefix: string, n: nat)
    requires Distinct(rows) && n < |Matching(rows, prefix)|
    ensures DropFirst(rows, prefix, n + 1) == Remove(DropFirst(rows, prefix, n), Matching(rows, prefix)[n])
    decreases |rows|
  {
    DistinctTail(rows);
    var first, rest := rows[0], rows[1..];
    if !(prefix <= first.key) {
      DropNext(rest, prefix, n);
      DropNextBehind(rows, prefix, n);
    } else if n > 0 {
      DropNext(rest, prefix, n - 1);
    } else {
      RemoveMiddle([], first, rest);
      assert rows == [] + [first] + rest;
    }
  }

  lemma DropNextBehind<V>(rows: seq<Row<V>>, prefix: string, n: nat)
    requires rows != [] && !(prefix <= rows[0].key) && n < |Matching(rows[1..], prefix)|
    requires DropFirst(rows[1..], prefix, n + 1)
        == Remove(DropFirst(rows[1..], prefix, n), Matching(rows[1..], prefix)[n])
    ensures DropFirst(rows, prefix, n + 1) == Remove(DropFirst(rows, prefix, n), Matching(rows, prefix)[n])
  {
    var rest := rows[1..];
    var key := Matching(rest, prefix)[n];
    MatchingIn(rest, prefix, key);
    DropBehind(rows, prefix, n);
    DropBehind(rows, prefix, n + 1);
    RemoveBehind(rows[0], DropFirst(rest, prefix, n), key);
  }

  lemma DropBehind<V>(rows: seq<Row<V>>, prefix: string, n: nat)
    requires rows != [] && !(prefix <= rows[0].key)
    ensures DropFirst(rows, prefix, n) == [rows[0]] + DropFirst(rows[1..], prefix, n)
  {
    if n == 0 {
      assert DropFirst(rows[1..], prefix, n) == rows[1..];
      assert [rows[0]] + rows[1..] == rows;
    }
  }

  lemma IndexBehind<V>(first: Row<V>, rest: seq<Row<V>>, key: string)
    requires first.key != key
    ensures IndexOf([first] + rest, key) == 1 + IndexOf(rest, key)
  {
    assert ([first] + rest)[1..] == rest;
  }

  lemma SlicesBehind<V>(first: Row<V>, kept: seq<Row<V>>, i: nat)
    requires i < |kept|
    ensures Without([first] + kept, 1 + i) == [first] + Without(kept, i)
  {
  }

  lemma RemoveIs<V>(rows: seq<Row<V>>, key: string, i: nat)
    requires IndexOf(rows, key) == i
    ensures Remove(rows, key) == if i < |rows| then Without(rows, i) else rows
  {
  }

  lemma RemoveBehind<V>(first: Row<V>, kept: seq<Row<V>>, key: string)
    requires first.key != key
    ensures Remove([first] + kept, key) == [first] + Remove(kept, key)
  {
    var i := IndexOf(kept, key);
    IndexBehind(first, kept, key);
    RemoveIs(kept, key, i);
    RemoveIs([first] + kept, key, 1 + i);
    if i < |kept| {
      SlicesBehind(first, kept, i);
    }
  }

  lemma {:induction false} DropAll<V>(rows: seq<Row<V>>, prefix: string, n: nat)
    ensures n >= |Matching(rows, prefix)| ==>
        DropFirst(rows, prefix, n) == DropFirst(rows, prefix, |Matching(rows, prefix)|)
    decreases |rows|
  {
    if rows != [] {
      if prefix <= rows[0].key {
        if n > 0 {
          DropAll(rows[1..], prefix, n - 1);
        }
      } else {
        DropAll(rows[1..], prefix, n);
        DropBehind(rows, prefix, n);
        DropBehind(rows, prefix, |Matching(rows, prefix)|);
      }
    }
  }

  /** Eviction leaves at most keepMax keys of the prefix: the last ones inserted. */
  lemma {:induction false} EvictedMatching<V>(rows: seq<Row<V>>, prefix: string, n: nat)
    requires n <= |Matching(rows, prefix)|
    ensures Matching(DropFirst(rows, prefix, n), prefix) == Matching(rows, prefix)[n..]
    decreases |rows|
  {
    if rows != [] && n > 0 {
      if prefix <= rows[0].key {
        EvictedMatching(rows[1..], prefix, n - 1);
      } else {
        EvictedMatching(rows[1..], prefix, n);
        var rest := DropFirst(rows[1..], prefix, n);
        assert ([rows[0]] + rest)[1..] == rest;
      }
    }
  }

  lemma FindBehind<V>(first: Row<V>, rest: seq<Row<V>>, key: string)
    requires first.key != key
    ensures Find([first] + rest, key) == Find(rest, key)
  {
    IndexBehind(first, rest, key);
  }

  /** Eviction never touches a key outside the prefix. */
  lemma {:induction false} EvictedOthers<V>(rows: seq<Row<V>>, prefix: string, n: int, key: string)
    requires !(prefix <= key)
    ensures Find(DropFirst(rows, prefix, n), key) == Find(rows, key)
    decreases |rows|
  {
    if rows != [] && n > 0 {
      var first, rest := rows[0], rows[1..];
      assert [first] + rest == rows;
      var matches := prefix <= first.key;
      EvictedOthers(rest, prefix, if matches then n - 1 else n, key);
      if matches {
        FindBehind(first, rest, key);
      } else if first.key != key {
        FindBehind(first, rest, key);
        FindBehind(first, DropFirst(rest, prefix, n), key);
      }
    }
  }

  // ---- Order -------------------------------------------------------------

  /** Some of the rows, in the same order. */
  ghost predicate InOrder<V>(kept: seq<Row<V>>, rows: seq<Row<V>>) {
    kept == [] || (rows != [] && (InOrder(kept, rows[1..]) || (kept[0] == rows[0] && InOrder(kept[1..], rows[1..]))))
  }

  lemma {:induction false} InOrderSelf<V>(rows: seq<Row<V>>)
    ensures InOrder(rows, rows)
    decreases |rows|
  {
    if rows != [] {
      InOrderSelf(rows[1..]);
    }
  }

  lemma {:induction false} InOrderConcat<V>(x: seq<Row<V>>, y: seq<Row<V>>, a: seq<Row<V>>, b: seq<Row<V>>)
    requires InOrder(x, a) && InOrder(y, b)
    ensures InOrder(x + y, a + b)
    decreases |a|
  {
    if a == [] {
      assert x + y == y && a + b == b;
    } else {
      assert (a + b)[1..] == a[1..] + b;
      if InOrder(x, a[1..]) {
        InOrderConcat(x, y, a[1..], b);
      } else {
        assert x != [] && (x + y)[0] == x[0] && (x + y)[1..] == x[1..] + y;
        InOrderConcat(x[1..], y, a[1..], b);
      }
    }
  }

  /** A write replaces a row where it is, or adds it behind the others. */
  lemma PutInPlace<V>(x: seq<Row<V>>, was: Row<V>, y: seq<Row<V>>, rec: Rec<V>)
    requires Distinct(x + [was] + y)
    ensures Put(x + [was] + y, was.key, rec) == x + [Row(was.key, rec)] + y
  {
    var rows := x + [was] + y;
    assert rows[|x|] == was;
    FindAt(rows, |x|);
  }

  lemma PutBehind<V>(rows: seq<Row<V>>, key: string, rec: Rec<V>)
    requires forall i | 0 <= i < |rows| :: rows[i].key != key
    ensures Put(rows, key, rec) == rows + [Row(key, rec)]
  {
    IndexFacts(rows, key);
  }

  /** Whatever goes, what is left keeps its order. */
  lemma RemoveInOrder<V>(rows: seq<Row<V>>, key: string)
    ensures InOrder(Remove(rows, key), rows)
  {
    var i := IndexOf(rows, key);
    InOrderSelf(rows);
    if i < |rows| {
      InOrderSelf(rows[..i]);
      InOrderSelf(rows[i + 1..]);
      InOrderConcat([], rows[i + 1..], [rows[i]], rows[i + 1..]);
      InOrderConcat(rows[..i], [] + rows[i + 1..], rows[..i], [rows[i]] + rows[i + 1..]);
      assert rows == rows[..i] + ([rows[i]] + rows[i + 1..]);
      assert [] + rows[i + 1..] == rows[i + 1..];
    }
  }

  lemma {:induction false} SurvivorsInOrder<V>(rows: seq<Row<V>>, before: int)
    ensures InOrder(Survivors(rows, before), rows)
    decreases |rows|
  {
    if rows != [] {
      var init, last := rows[..|rows| - 1], Last(rows);
      SurvivorsInOrder(init, before);
      InOrderSelf([last]);
      InOrderConcat(Survivors(init, before), if last.rec.updatedAt < before then [] else [last], init, [last]);
      assert rows == init + [last];
    }
  }

  lemma {:induction false} EvictedInOrder<V>(rows: seq<Row<V>>, prefix: string, n: int)
    ensures InOrder(DropFirst(rows, prefix, n), rows)
    decreases |rows|
  {
    InOrderSelf(rows);
    if rows != [] && n > 0 {
      EvictedInOrder(rows[1..], prefix, n - 1);
      EvictedInOrder(rows[1..], prefix, n);
      assert ([rows[0]] + DropFirst(rows[1..], prefix, n))[1..] == DropFirst(rows[1..], prefix, n);
    }
  }

  // ---- The in-process backend --------------------------------------------

  datatype WriteFailure<E> = CasConflict | MutateFailed(error: E) | Exhausted

  class LocalStore<V, E> {
    var rows: seq<Row<V>>

    ghost predicate Valid()
      reads this
    {
      Distinct(rows)
    }

    constructor ()
      ensures Valid() && rows == []
    {
      rows := [];
    }

    method Claim(key: string, value: V, now: int) returns (claimed: bool)
      requires Valid()
      modifies this
      ensures Valid()
      ensures claimed == Find(old(rows), key).None?
      ensures rows == if claimed then old(rows) + [Row(key, Rec(value, 1, now))] else old(rows)
    {
      if IndexOf(rows, key) < |rows| {
        return false;
      }
      FindPut(rows, key, Rec(value, 1, now), key);
      rows := rows + [Row(key, Rec(value, 1, now))];
      claimed := true;
    }

    method Write(key: string, value: V, now: int) returns (version: nat)
      requires Valid()
      modifies this
      ensures Valid() && version == VersionOf(Find(old(rows), key)) + 1
      ensures rows == Put(old(rows), key, Rec(value, version, now))
    {
      version := VersionOf(Find(rows, key)) + 1;
      FindPut(rows, key, Rec(value, version, now), key);
      rows := Put(rows, key, Rec(value, version, now));
    }

    method WriteAtomically(key: string, mutate: Option<V> -> Result<V, E>, expected: Option<nat>, now: int)
      returns (r: Result<Rec<V>, WriteFailure<E>>)
      requires Valid()
      modifies this
      ensures Valid()
      ensures var was := Find(old(rows), key);
        if expected.Some? && expected.value != VersionOf(was) then r == Err(CasConflict) && rows == old(rows)
        else
          match mutate(ValueOf(was))
          case Err(e) => r == Err(MutateFailed(e)) && rows == old(rows)
          case Ok(next) => r == Ok(Rec(next, VersionOf(was) + 1, now)) && rows == Put(old(rows), key, r.value)
    {
      var was := Find(rows, key);
      if expected.Some? && expected.value != VersionOf(was) {
        return Err(CasConflict);
      }
      match mutate(ValueOf(was))
      case Err(e) => r := Err(MutateFailed(e));
      case Ok(next) =>
        var rec := Rec(next, VersionOf(was) + 1, now);
        FindPut(rows, key, rec, key);
        rows := Put(rows, key, rec);
        r := Ok(rec);
    }

    method Delete(key: string) returns (deleted: bool)
      requires Valid()
      modifies this
      ensures Valid() && deleted == Find(old(rows), key).Some? && rows == Remove(old(rows), key)
    {
      FindRemove(rows, key, key);
      deleted := IndexOf(rows, key) < |rows|;
      rows := Remove(rows, key);
    }

    method PurgeExpired(before: int) returns (purged: nat)
      requires Valid()
      modifies this
      ensures Valid() && rows == Survivors(old(rows), before) && purged == |old(rows)| - |rows|
    {
      var all := rows;
      purged := 0;
      MidwayEnds(all, before);
      for i := 0 to |all|
        invariant rows == Midway(all, i, before) && purged == |all| - |rows|
      {
        MidwayStep(all, i, before);
        if all[i].rec.updatedAt < before {
          rows := Remove(rows, all[i].key);
          purged := purged + 1;
        }
      }
      SurvivorsDistinct(all, before);
    }

    method EvictOldest(prefix: string, keepMax: int) returns (evicted: nat)
      requires Valid()
      modifies this
      ensures Valid() && rows == Evicted(old(rows), prefix, keepMax)
      ensures evicted == if |Matching(old(rows), prefix)| > keepMax then |Matching(old(rows), prefix)| - keepMax else 0
    {
      var matching := Matching(rows, prefix);
      var excess := |matching| - keepMax;
      if excess <= 0 {
        return 0;
      }
      ghost var all := rows;
      var stop := if excess <= |matching| then excess else |matching|;
      for i := 0 to stop
        invariant rows == DropFirst(all, prefix, i) && Distinct(rows)
      {
        DropNext(all, prefix, i);
        FindRemove(rows, matching[i], matching[i]);
        rows := Remove(rows, matching[i]);
      }
      DropAll(all, prefix, excess);
      evicted := excess;
    }
  }

  // ---- The shared backend ------------------------------------------------

  /** What other connections do during one attempt: nothing, hold the lock, or commit
      between its read and its update. */
  datatype Weather<V> = Calm | Locked | Overtaken(rows: seq<Row<V>>)

  function Overtake<V>(rows: seq<Row<V>>, w: Weather<V>): seq<Row<V>> {
    match w case Overtaken(others) => others case _ => rows
  }

  /** Update where the version is the one seen, or insert where no row was seen. */
  predicate Applies<V>(seen: Option<Rec<V>>, current: Option<Rec<V>>) {
    if seen.Some? then current.Some? && current.value.version == seen.value.version else current.None?
  }

  /** The table once others have done what they do in the first attempts. */
  ghost function Met<V>(rows: seq<Row<V>>, weather: nat -> Weather<V>, attempts: nat): seq<Row<V>> {
    if attempts == 0 then rows else
      match weather(attempts - 1)
      case Overtaken(others) => others
      case Calm => Met(rows, weather, attempts - 1)
      case Locked => Met(rows, weather, attempts - 1)
  }

  class SqliteStore<V, E> {
    var rows: seq<Row<V>>

    /** `seen` is the row read in the attempt that ended the call, `before` the table its
        update met. Without success nothing of this call's is in the table. */
    method WriteAtomically(key: string, mutate: Option<V> -> Result<V, E>, expected: Option<nat>, retries: nat,
                           weather: nat -> Weather<V>, now: int)
      returns (r: Result<Rec<V>, WriteFailure<E>>, ghost seen: Option<Rec<V>>, ghost before: seq<Row<V>>)
      modifies this
      ensures r.Ok? ==>
        && Applies(seen, Find(before, key)) && mutate(ValueOf(seen)) == Ok(r.value.value)
        && r.value == Rec(r.value.value, VersionOf(Find(before, key)) + 1, now)
        && rows == Put(before, key, r.value)
        && (expected.Some? ==> expected.value == VersionOf(Find(before, key)))
      ensures r.Err? ==> rows == before
      ensures r == Err(CasConflict) ==> expected.Some? && expected.value != VersionOf(seen)
      ensures r.Err? && r.error.MutateFailed? ==> mutate(ValueOf(seen)) == Err(r.error.error)
      ensures r == Err(Exhausted) ==> forall i | 0 <= i <= retries :: weather(i) != Calm
      ensures exists attempts | 0 <= attempts <= retries + 1 :: before == Met(old(rows), weather, attempts)
      ensures r == Err(Exhausted) ==> before == Met(old(rows), weather, retries + 1)
    {
      before := rows;
      seen := None;
      for attempt := 0 to retries + 1
        invariant rows == before == Met(old(rows), weather, attempt)
        invariant forall i | 0 <= i < attempt :: weather(i) != Calm
      {
        if weather(attempt) != Locked {
          var row := Find(rows, key);
          seen := row;
          if expected.Some? && expected.value != VersionOf(row) {
            return Err(CasConflict), seen, before;
          }
          var next := mutate(ValueOf(row));
          if next.Err? {
            return Err(MutateFailed(next.error)), seen, before;
          }
          rows := Overtake(rows, weather(attempt));
          before := rows;
          assert before == Met(old(rows), weather, attempt + 1);
          if Applies(row, Find(rows, key)) {
            var rec := Rec(next.value, VersionOf(row) + 1, now);
            rows := Put(rows, key, rec);
            return Ok(rec), seen, before;
          }
        }
      }
      r := Err(Exhausted);
    }
  }
}
