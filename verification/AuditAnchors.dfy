/**
 Anchors of the audit trail (mcp-server/src/audit-anchor.js): each commits to how many
 records there were and to the hash of the last. What a matching anchor proves, and that
 honest anchors match.
 */
module AuditAnchors {
  import opened Common
  import opened JsonText
  import opened CanonicalJson
  import opened AuditChain

  datatype AnchorRecord = AnchorRecord(index: int, tailHash: Text, entryCount: int)

  /** Why an anchor is reported; NotIntact is about the trail, not an anchor. */
  datatype Problem = NotIntact | IndexGap(index: int) | TailMismatch(index: int)

  datatype Check = Check(verified: nat, problems: seq<Problem>, dropped: seq<int>)

  // ---- Comparing hashes --------------------------------------------------

  function Lower(u: bv16): bv16 {
    if 65 <= u <= 90 then u + 32 else u
  }

  function LowerAll(s: Text): Text {
    if s == [] then [] else LowerAll(s[..|s| - 1]) + [Lower(s[|s| - 1])]
  }

  /** Without a leading 0x, in lower case. */
  function Strip0x(s: Text): Text {
    LowerAll(if |s| >= 2 && s[0] == 48 && (s[1] == 120 || s[1] == 88) then s[2..] else s)
  }

  predicate IsLowerHex(s: Text) {
    forall i | 0 <= i < |s| :: 48 <= s[i] <= 57 || 97 <= s[i] <= 102
  }

  /** As SHA-256 in hexadecimal is. */
  ghost predicate IsHexHash(h: Hash) {
    forall x: Text :: IsLowerHex(h(x)) && |h(x)| == 64
  }

  lemma {:induction false} LowerStays(s: Text)
    requires IsLowerHex(s)
    ensures LowerAll(s) == s
    decreases |s|
  {
    if s != [] {
      LowerStays(s[..|s| - 1]);
      assert s == s[..|s| - 1] + [s[|s| - 1]];
    }
  }

  lemma HexStays(s: Text)
    requires IsLowerHex(s)
    ensures Strip0x(s) == s
  {
    LowerStays(s);
    assert |s| >= 2 ==> s[1] != 120 && s[1] != 88;
  }

  // ---- The check ---------------------------------------------------------

  /** The hash at the anchor's position; None for a count of zero or less. */
  function HashAt(hashes: seq<Text>, entryCount: int): Option<Text> {
    if 1 <= entryCount <= |hashes| then Some(Strip0x(hashes[entryCount - 1])) else None
  }

  predicate Matches(hashes: seq<Text>, a: AnchorRecord) {
    HashAt(hashes, a.entryCount) == Some(Strip0x(a.tailHash))
  }

  function IndexBefore(anchors: seq<AnchorRecord>, i: nat): int
    requires i <= |anchors|
  {
    if i == 0 then -1 else anchors[i - 1].index
  }

  /** What one anchor adds. */
  function Judged(c: Check, hashes: seq<Text>, a: AnchorRecord, previous: int): Check {
    var d := if a.index != previous + 1 then c.(problems := c.problems + [IndexGap(a.index)]) else c;
    if a.entryCount > |hashes| then d.(dropped := d.dropped + [a.index])
    else if Matches(hashes, a) then d.(verified := d.verified + 1)
    else d.(problems := d.problems + [TailMismatch(a.index)])
  }

  function Checked(hashes: seq<Text>, anchors: seq<AnchorRecord>): Check {
    if anchors == [] then Check(0, [], []) else
      var n := |anchors| - 1;
      Judged(Checked(hashes, anchors[..n]), hashes, anchors[n], IndexBefore(anchors, n))
  }

  lemma CheckedStep(hashes: seq<Text>, anchors: seq<AnchorRecord>, i: nat)
    requires i < |anchors|
    ensures Checked(hashes, anchors[..i + 1])
        == Judged(Checked(hashes, anchors[..i]), hashes, anchors[i], IndexBefore(anchors, i))
  {
    assert anchors[..i + 1][..i] == anchors[..i];
  }

  method VerifyAuditAgainstAnchors(trail: Trail, anchors: seq<AnchorRecord>) returns (ok: bool, check: Check)
    ensures check == if trail.verdict.Complete? then Checked(trail.hashes, anchors) else Check(0, [NotIntact], [])
    ensures ok == (check.problems == [])
  {
    if !trail.verdict.Complete? {
      return false, Check(0, [NotIntact], []);
    }
    var prevIndex, verified := -1, 0;
    var problems: seq<Problem>, dropped: seq<int> := [], [];
    for i := 0 to |anchors|
      invariant Check(verified, problems, dropped) == Checked(trail.hashes, anchors[..i])
      invariant prevIndex == IndexBefore(anchors, i)
    {
      var a := anchors[i];
      ghost var before := Check(verified, problems, dropped);
      CheckedStep(trail.hashes, anchors, i);
      if a.index != prevIndex + 1 {
        problems := problems + [IndexGap(a.index)];
      }
      if a.entryCount > |trail.hashes| {
        dropped := dropped + [a.index];
      } else if Matches(trail.hashes, a) {
        verified := verified + 1;
      } else {
        problems := problems + [TailMismatch(a.index)];
      }
      assert Check(verified, problems, dropped) == Judged(before, trail.hashes, a, prevIndex);
      prevIndex := a.index;
    }
    assert anchors[..|anchors|] == anchors;
    check := Check(verified, problems, dropped);
    ok := problems == [];
  }

  ghost predicate InSequence(anchors: seq<AnchorRecord>) {
    forall i | 0 <= i < |anchors| :: anchors[i].index == i
  }

  /** Out of reach, or a match. */
  ghost predicate Fits(hashes: seq<Text>, a: AnchorRecord) {
    a.entryCount <= |hashes| ==> Matches(hashes, a)
  }

  ghost predicate AllMatch(hashes: seq<Text>, anchors: seq<AnchorRecord>) {
    forall i | 0 <= i < |anchors| :: Fits(hashes, anchors[i])
  }

  ghost predicate AllInReach(hashes: seq<Text>, anchors: seq<AnchorRecord>) {
    forall i | 0 <= i < |anchors| :: anchors[i].entryCount <= |hashes|
  }

  lemma JudgedFacts(c: Check, hashes: seq<Text>, a: AnchorRecord, previous: int)
    ensures var d := Judged(c, hashes, a, previous);
      && (d.problems == [] <==> c.problems == [] && a.index == previous + 1 && Fits(hashes, a))
      && (d.problems == [] ==> d.verified + |d.dropped| == c.verified + |c.dropped| + 1)
      && (d.dropped == [] <==> c.dropped == [] && a.entryCount <= |hashes|)
  {
  }

  /** The three conditions, one anchor at a time. */
  lemma OneMore(hashes: seq<Text>, anchors: seq<AnchorRecord>)
    requires anchors != []
    ensures var n := |anchors| - 1; var init, a := anchors[..n], anchors[n];
      && (InSequence(anchors) <==> InSequence(init) && a.index == n)
      && (AllMatch(hashes, anchors) <==> AllMatch(hashes, init) && Fits(hashes, a))
      && (AllInReach(hashes, anchors) <==> AllInReach(hashes, init) && a.entryCount <= |hashes|)
  {
    var n := |anchors| - 1;
    var init := anchors[..n];
    assert anchors == init + [anchors[n]];
    if AllMatch(hashes, init) && Fits(hashes, anchors[n]) {
      forall i | 0 <= i < |anchors| ensures Fits(hashes, anchors[i]) {
        assert i < n ==> anchors[i] == init[i];
      }
    }
    if AllMatch(hashes, anchors) {
      forall i | 0 <= i < n ensures Fits(hashes, init[i]) {
        assert init[i] == anchors[i];
      }
    }
  }

  /** No problem exactly when the anchors are numbered without gaps and each within reach
      matches; then every anchor is either verified or out of reach. */
  lemma {:induction false} NoProblemExactly(hashes: seq<Text>, anchors: seq<AnchorRecord>)
    ensures var c := Checked(hashes, anchors);
      && (c.problems == [] <==> InSequence(anchors) && AllMatch(hashes, anchors))
      && (c.problems == [] ==> c.verified + |c.dropped| == |anchors|)
      && (c.dropped == [] <==> AllInReach(hashes, anchors))
    decreases |anchors|
  {
    if anchors != [] {
      var n := |anchors| - 1;
      var init := anchors[..n];
      NoProblemExactly(hashes, init);
      OneMore(hashes, anchors);
      JudgedFacts(Checked(hashes, init), hashes, anchors[n], IndexBefore(anchors, n));
      if InSequence(init) {
        LastIndex(anchors);
      }
    }
  }

  lemma LastIndex(anchors: seq<AnchorRecord>)
    requires anchors != [] && InSequence(anchors[..|anchors| - 1])
    ensures IndexBefore(anchors, |anchors| - 1) == |anchors| - 2
  {
    var n := |anchors| - 1;
    assert n > 0 ==> anchors[..n][n - 1] == anchors[n - 1];
  }

  /** The problems named are mismatches within reach and numbers that do not follow, and the
      anchors dropped are those out of reach. */
  lemma VerdictExactly(hashes: seq<Text>, anchors: seq<AnchorRecord>, n: int)
    ensures TailMismatch(n) in Checked(hashes, anchors).problems <==>
      exists i | 0 <= i < |anchors| :: anchors[i].index == n && !Fits(hashes, anchors[i])
    ensures n in Checked(hashes, anchors).dropped <==>
      exists i | 0 <= i < |anchors| :: anchors[i].index == n && anchors[i].entryCount > |hashes|
    ensures IndexGap(n) in Checked(hashes, anchors).problems <==>
      exists i | 0 <= i < |anchors| :: anchors[i].index == n && GapAt(anchors, i)
  {
    MismatchesExactly(hashes, anchors, n);
    DroppedExactly(hashes, anchors, n);
    GapsExactly(hashes, anchors, n);
  }

  lemma {:induction false} MismatchesExactly(hashes: seq<Text>, anchors: seq<AnchorRecord>, n: int)
    ensures TailMismatch(n) in Checked(hashes, anchors).problems <==>
      exists i | 0 <= i < |anchors| :: anchors[i].index == n && !Fits(hashes, anchors[i])
    decreases |anchors|
  {
    if anchors != [] {
      var init, last := anchors[..|anchors| - 1], anchors[|anchors| - 1];
      assert anchors == init + [last];
      MismatchesExactly(hashes, init, n);
    }
  }

  lemma {:induction false} DroppedExactly(hashes: seq<Text>, anchors: seq<AnchorRecord>, n: int)
    ensures n in Checked(hashes, anchors).dropped <==>
      exists i | 0 <= i < |anchors| :: anchors[i].index == n && anchors[i].entryCount > |hashes|
    decreases |anchors|
  {
    if anchors != [] {
      var init, last := anchors[..|anchors| - 1], anchors[|anchors| - 1];
      assert anchors == init + [last];
      DroppedExactly(hashes, init, n);
    }
  }

  lemma {:induction false} GapsExactly(hashes: seq<Text>, anchors: seq<AnchorRecord>, n: int)
    ensures IndexGap(n) in Checked(hashes, anchors).problems <==>
      exists i | 0 <= i < |anchors| :: anchors[i].index == n && GapAt(anchors, i)
    decreases |anchors|
  {
    if anchors != [] {
      var init, last := anchors[..|anchors| - 1], anchors[|anchors| - 1];
      assert anchors == init + [last];
      GapsExactly(hashes, init, n);
      assert forall i | 0 <= i < |init| :: GapAt(anchors, i) <==> GapAt(init, i);
    }
  }

  ghost predicate GapAt(anchors: seq<AnchorRecord>, i: nat)
    requires i < |anchors|
  {
    if i == 0 then anchors[0].index != 0 else anchors[i].index != anchors[i - 1].index + 1
  }

  /** A hash without its prefix. */
  ghost function Bare(s: Text): Text {
    if [48, 120] <= s || [48, 88] <= s then s[2..] else s
  }

  /** Units that differ at most in the case of a letter. */
  lemma LowerExactly(u: bv16, v: bv16)
    ensures Lower(u) == Lower(v) <==> u == v || (65 <= u <= 90 && v == u + 32) || (65 <= v <= 90 && u == v + 32)
  {
  }

  /** Two hashes up to case and prefix. */
  ghost predicate SameSpelling(s: Text, t: Text) {
    |Bare(s)| == |Bare(t)| && forall i | 0 <= i < |Bare(s)| :: Lower(Bare(s)[i]) == Lower(Bare(t)[i])
  }

  lemma {:induction false} LowerAllAt(s: Text)
    ensures |LowerAll(s)| == |s| && forall i | 0 <= i < |s| :: LowerAll(s)[i] == Lower(s[i])
    decreases |s|
  {
    if s != [] {
      LowerAllAt(s[..|s| - 1]);
    }
  }

  lemma LowerSame(s: Text, t: Text)
    ensures LowerAll(s) == LowerAll(t) <==> |s| == |t| && forall i | 0 <= i < |s| :: Lower(s[i]) == Lower(t[i])
  {
    LowerAllAt(s);
    LowerAllAt(t);
    if LowerAll(s) == LowerAll(t) {
      forall i | 0 <= i < |s| ensures Lower(s[i]) == Lower(t[i]) {
        assert LowerAll(s)[i] == LowerAll(t)[i];
      }
    }
  }

  /** An anchor matches exactly when it is within reach and its hash is the one at its
      position, up to case and prefix. */
  lemma MatchesExactly(hashes: seq<Text>, a: AnchorRecord)
    ensures Matches(hashes, a) <==>
      1 <= a.entryCount <= |hashes| && SameSpelling(hashes[a.entryCount - 1], a.tailHash)
  {
    if 1 <= a.entryCount <= |hashes| {
      LowerSame(Bare(hashes[a.entryCount - 1]), Bare(a.tailHash));
    }
  }

  // ---- What a matching anchor proves -------------------------------------

  ghost predicate AllProper(lines: Volume) {
    forall i | 0 <= i < |lines| :: lines[i].Parsed? && Proper(lines[i].rec)
  }

  lemma KeysDiffer()
    ensures PREV_KEY !in AUDIT
  {
    assert |PREV_KEY| != |HASH_KEY|;
  }

  lemma SameHashSameMeaning(h: Hash, x: Json, y: Json)
    requires Proper(x) && Proper(y) && AuditHash(h, x) == AuditHash(h, y)
    ensures MeaningOf(x, AUDIT) == MeaningOf(y, AUDIT) || Collide(h, x, y)
  {
    CanonInjective(x, y, AUDIT);
  }

  ghost predicate SameRecord(a: Volume, b: Volume, i: nat)
    requires i < |a| && i < |b|
  {
    a[i].Parsed? && b[i].Parsed? && MeaningOf(a[i].rec, AUDIT) == MeaningOf(b[i].rec, AUDIT)
  }

  ghost predicate CollideAt(h: Hash, a: Volume, b: Volume, i: nat)
    requires i < |a| && i < |b|
  {
    a[i].Parsed? && b[i].Parsed? && Collide(h, a[i].rec, b[i].rec)
  }

  /** Somewhere from i to before k the two trails have records that collide. */
  ghost predicate CollideWithin(h: Hash, a: Volume, b: Volume, i: nat, k: nat)
    requires k <= |a| && k <= |b|
  {
    exists j | i <= j < k :: CollideAt(h, a, b, j)
  }

  lemma SameHashAt(h: Hash, a: Volume, i: nat, b: Volume, j: nat)
    requires AllProper(a) && AllProper(b) && i < |a| && j < |b| && HashOf(h, a[i]) == HashOf(h, b[j])
    ensures a[i].Parsed? && b[j].Parsed?
    ensures MeaningOf(a[i].rec, AUDIT) == MeaningOf(b[j].rec, AUDIT) || Collide(h, a[i].rec, b[j].rec)
  {
    SameHashSameMeaning(h, a[i].rec, b[j].rec);
  }

  lemma Earlier(h: Hash, a: Volume, b: Volume, i: nat, k: nat)
    requires 0 < k <= |a| && k <= |b| && CollideWithin(h, a, b, i, k - 1)
    ensures CollideWithin(h, a, b, i, k)
  {
  }

  /** Trails with one hash at one position agree up to there, or from some position on have
      two records that collide. */
  lemma {:induction false} HashBindsPrefix(h: Hash, a: Volume, b: Volume, k: nat, i: nat)
    requires Linked(h, a) && Linked(h, b) && AllProper(a) && AllProper(b)
    requires i < k <= |a| && k <= |b| && HashOf(h, a[k - 1]) == HashOf(h, b[k - 1])
    ensures SameRecord(a, b, i) || CollideWithin(h, a, b, i, k)
    decreases k
  {
    SameHashAt(h, a, k - 1, b, k - 1);
    if !CollideAt(h, a, b, k - 1) && i < k - 1 {
      SamePrevHash(h, a, k - 1, b, k - 1);
      HashBindsPrefix(h, a, b, k - 1, i);
      if CollideWithin(h, a, b, i, k - 1) {
        Earlier(h, a, b, i, k);
      }
    }
  }

  /** A later record of a linked trail points to the hash of the one before. */
  lemma PointsBack(h: Hash, a: Volume, i: nat)
    requires Linked(h, a) && 0 < i < |a|
    ensures a[i].Parsed? && Field(a[i].rec, PREV_KEY) == JStr(HashOf(h, a[i - 1]))
  {
    assert Sealed(h, a[i - 1].rec);
  }

  /** Records that mean the same have predecessors with the same hash. */
  lemma SamePrevHash(h: Hash, a: Volume, i: nat, b: Volume, j: nat)
    requires Linked(h, a) && Linked(h, b) && AllProper(a) && AllProper(b) && 0 < i < |a| && 0 < j < |b|
    requires MeaningOf(a[i].rec, AUDIT) == MeaningOf(b[j].rec, AUDIT)
    ensures HashOf(h, a[i - 1]) == HashOf(h, b[j - 1])
  {
    PointsBack(h, a, i);
    PointsBack(h, b, j);
    KeysDiffer();
    SameField(a[i].rec, b[j].rec, PREV_KEY, HashOf(h, a[i - 1]), AUDIT);
  }

  /** Two complete trails that both match one anchor agree on every record it covers, up to
      key order and stored hashes, or two of the records it covers collide. */
  lemma AnchorBindsPrefix(h: Hash, a: Volume, b: Volume, anchor: AnchorRecord, i: nat)
    requires IsHexHash(h) && AllProper(a) && AllProper(b)
    requires Replays(h, a) && Replays(h, b)
    requires Matches(HashesOf(h, a), anchor) && Matches(HashesOf(h, b), anchor)
    requires i < anchor.entryCount
    ensures anchor.entryCount <= |a| && anchor.entryCount <= |b|
    ensures SameRecord(a, b, i) || CollideWithin(h, a, b, i, anchor.entryCount)
  {
    ReplayMeansLinked(h, a);
    ReplayMeansLinked(h, b);
    var k := anchor.entryCount;
    HexStays(HashesOf(h, a)[k - 1]);
    HexStays(HashesOf(h, b)[k - 1]);
    HashBindsPrefix(h, a, b, k, i);
  }

  /** The replay completes, with the hashes of all lines. */
  ghost predicate Replays(h: Hash, lines: Volume) {
    ReplayFrom(h, lines, 0, []) == (HashesOf(h, lines), None, false)
  }

  // ---- Honest anchors match ----------------------------------------------

  /** The anchor made of a trail, as the chain may spell its hash. */
  ghost predicate MadeFrom(h: Hash, a: AnchorRecord, trail: Volume) {
    trail != [] && a.entryCount == |trail| && Strip0x(a.tailHash) == Strip0x(HashesOf(h, trail)[|trail| - 1])
  }

  /** Every anchor was made of some beginning of the trail. */
  ghost predicate AnchorsOf(h: Hash, anchors: seq<AnchorRecord>, lines: Volume) {
    forall i | 0 <= i < |anchors| :: exists n :: 0 < n <= |lines| && MadeFrom(h, anchors[i], lines[..n])
  }

  /** An anchor made of a trail still fits after the trail has grown. */
  lemma AnchorOutlivesGrowth(h: Hash, lines: Volume, n: nat, a: AnchorRecord)
    requires 0 < n <= |lines| && MadeFrom(h, a, lines[..n])
    ensures a.entryCount <= |lines| && Matches(HashesOf(h, lines), a)
  {
    assert lines[..n][n - 1] == lines[n - 1];
  }

  lemma AnchorFits(h: Hash, lines: Volume, anchors: seq<AnchorRecord>, i: nat)
    requires AnchorsOf(h, anchors, lines) && i < |anchors|
    ensures anchors[i].entryCount <= |lines| && Matches(HashesOf(h, lines), anchors[i])
  {
    var n :| 0 < n <= |lines| && MadeFrom(h, anchors[i], lines[..n]);
    AnchorOutlivesGrowth(h, lines, n, anchors[i]);
  }

  /** A linked trail that extends every anchored one replays, verifies all anchors and drops
      none. */
  lemma HonestAnchorsVerify(h: Hash, lines: Volume, anchors: seq<AnchorRecord>)
    requires Linked(h, lines) && InSequence(anchors) && AnchorsOf(h, anchors, lines)
    ensures Replays(h, lines)
    ensures Checked(HashesOf(h, lines), anchors) == Check(|anchors|, [], [])
  {
    LinkedReplays(h, lines);
    AllFit(h, lines, anchors);
    NoProblemExactly(HashesOf(h, lines), anchors);
  }

  lemma LinkedReplays(h: Hash, lines: Volume)
    ensures Replays(h, lines) <==> Linked(h, lines)
  {
    ReplayMeansLinked(h, lines);
  }

  lemma AllFit(h: Hash, lines: Volume, anchors: seq<AnchorRecord>)
    requires AnchorsOf(h, anchors, lines)
    ensures AllMatch(HashesOf(h, lines), anchors) && AllInReach(HashesOf(h, lines), anchors)
  {
    forall i | 0 <= i < |anchors|
      ensures Fits(HashesOf(h, lines), anchors[i]) && anchors[i].entryCount <= |HashesOf(h, lines)|
    {
      AnchorFits(h, lines, anchors, i);
    }
  }

  // ---- A deleted volume --------------------------------------------------

  /** Two records this far apart collide, the first at position j. */
  ghost predicate CollideApart(h: Hash, lines: Volume, gap: nat, j: nat)
    requires j + gap < |lines|
  {
    lines[j].Parsed? && lines[j + gap].Parsed? && Collide(h, lines[j].rec, lines[j + gap].rec)
  }

  ghost predicate SomeCollideApart(h: Hash, lines: Volume, gap: nat, k: nat)
    requires k + gap <= |lines|
  {
    exists j | 0 <= j < k :: CollideApart(h, lines, gap, j)
  }

  lemma CollidesBy(h: Hash, lines: Volume, gap: nat, j: nat, k: nat)
    requires j < k && k + gap <= |lines| && CollideApart(h, lines, gap, j)
    ensures SomeCollideApart(h, lines, gap, k)
  {
  }

  /** A proper chain from its very first record. */
  ghost predicate WholeChain(h: Hash, lines: Volume) {
    Linked(h, lines) && AllProper(lines) && Starts(lines, From(JNull))
  }

  /** Equal hashes: a collision there, or equal hashes one record earlier, unless the earlier
      of the two is the first. */
  lemma OneBack(h: Hash, lines: Volume, p: nat, gap: nat)
    requires WholeChain(h, lines) && 0 < gap && p + gap < |lines|
    requires HashOf(h, lines[p]) == HashOf(h, lines[p + gap]) && !CollideApart(h, lines, gap, p)
    ensures p > 0 && HashOf(h, lines[p - 1]) == HashOf(h, lines[p - 1 + gap])
  {
    SameHashAt(h, lines, p, lines, p + gap);
    if p == 0 {
      FirstIsAlone(h, lines, gap);
    } else {
      SamePrevHash(h, lines, p, lines, p + gap);
    }
  }

  /** No two positions of a chain from its start have one hash, or two of its records as far
      apart collide: going back together, the earlier reaches the start first. */
  lemma {:induction false} HashesDiffer(h: Hash, lines: Volume, p: nat, gap: nat)
    requires WholeChain(h, lines) && 0 < gap && p + gap < |lines|
    requires HashOf(h, lines[p]) == HashOf(h, lines[p + gap])
    ensures SomeCollideApart(h, lines, gap, p + 1)
    decreases p
  {
    if CollideApart(h, lines, gap, p) {
      CollidesBy(h, lines, gap, p, p + 1);
    } else {
      OneBack(h, lines, p, gap);
      HashesDiffer(h, lines, p - 1, gap);
      var j :| 0 <= j < p && CollideApart(h, lines, gap, j);
      CollidesBy(h, lines, gap, j, p + 1);
    }
  }

  /** The first record points to null, a later one to a hash. */
  lemma FirstIsAlone(h: Hash, lines: Volume, q: nat)
    requires WholeChain(h, lines) && 0 < q < |lines|
    ensures MeaningOf(lines[0].rec, AUDIT) != MeaningOf(lines[q].rec, AUDIT)
  {
    PointsBack(h, lines, q);
    KeysDiffer();
    if MeaningOf(lines[0].rec, AUDIT) == MeaningOf(lines[q].rec, AUDIT) {
      SameField(lines[q].rec, lines[0].rec, PREV_KEY, HashOf(h, lines[q - 1]), AUDIT);
    }
  }

  /** When the oldest volume is deleted, the positions anchors name shift. An anchor made of
      what there was then, whatever had been deleted before, and still in reach matches what
      is kept exactly when nothing was deleted, unless two records of the chain as far apart
      as what was deleted collide within its reach. */
  lemma DeletionShifts(h: Hash, before: Volume, gone: Volume, kept: Volume, index: int, k: nat)
    requires IsHexHash(h) && 1 <= k <= |kept|
    requires WholeChain(h, before + (gone + kept))
    ensures var anchor := AnchorRecord(index, HashesOf(h, gone + kept)[k - 1], k);
      || (Matches(HashesOf(h, kept), anchor) <==> gone == [])
      || SomeCollideApart(h, before + (gone + kept), |gone|, |before| + k)
  {
    var trail, lines := gone + kept, before + (gone + kept);
    ShiftedHash(h, gone, kept, k - 1);
    ShiftedHash(h, before, trail, k - 1);
    ShiftedHash(h, before, trail, |gone| + k - 1);
    HexStays(HashesOf(h, trail)[k - 1]);
    HexStays(HashesOf(h, kept)[k - 1]);
    if gone == [] {
      assert trail == kept;
    } else if HashesOf(h, trail)[k - 1] == HashesOf(h, trail)[|gone| + k - 1] {
      HashesDiffer(h, lines, |before| + k - 1, |gone|);
    }
  }

  lemma ShiftedHash(h: Hash, gone: Volume, kept: Volume, i: nat)
    requires i < |kept|
    ensures HashesOf(h, kept)[i] == HashesOf(h, gone + kept)[|gone| + i]
  {
    assert (gone + kept)[|gone| + i] == kept[i];
  }
}
