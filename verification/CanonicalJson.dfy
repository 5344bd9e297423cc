/**
 The canonical serialiser (mcp-server/src/audit-log.js, and stableStringify in
 mcp-server/src/remote-signer-keeper.js): object keys sorted by code unit, and some keys
 dropped at every depth: `hash` for the audit log, none for sessions.
 */
module CanonicalJson {
  import opened JsonText

  const HASH_KEY: Text := [104, 97, 115, 104]
  const AUDIT: set<Text> := {HASH_KEY}

  // ---- Key order ---------------------------------------------------------

  predicate Before(x: bv16, y: bv16) {
    x < y
  }

  /** By code unit, as Array.prototype.sort orders strings. */
  predicate Less(a: Text, b: Text) {
    if b == [] then false
    else if a == [] then true
    else if a[0] != b[0] then Before(a[0], b[0])
    else Less(a[1..], b[1..])
  }

  lemma Halves(x: bv16)
    ensures x == ((x >> 8) << 8) | (x & 255)
  {
  }

  lemma SameHigh(x: bv16, y: bv16)
    ensures Before(x, y) || Before(y, x) || x >> 8 == y >> 8
  {
  }

  lemma SameLow(x: bv16, y: bv16)
    ensures Before(x, y) || Before(y, x) || x & 255 == y & 255
  {
  }

  lemma BeforeEither(x: bv16, y: bv16)
    ensures x == y || Before(x, y) || Before(y, x)
  {
    Halves(x);
    Halves(y);
    SameHigh(x, y);
    SameLow(x, y);
  }

  lemma BeforeTransitive(x: bv16, y: bv16, z: bv16)
    requires Before(x, y) && Before(y, z)
    ensures Before(x, z) && x != z
  {
  }

  lemma {:induction false} LessIrreflexive(a: Text)
    ensures !Less(a, a)
    decreases |a|
  {
    if a != [] {
      LessIrreflexive(a[1..]);
    }
  }

  lemma {:induction false} LessTransitive(a: Text, b: Text, c: Text)
    requires Less(a, b) && Less(b, c)
    ensures Less(a, c)
    decreases |a|
  {
    if a != [] {
      if a[0] == b[0] && b[0] == c[0] {
        LessTransitive(a[1..], b[1..], c[1..]);
      } else if a[0] != b[0] && b[0] != c[0] {
        BeforeTransitive(a[0], b[0], c[0]);
      }
    }
  }

  lemma {:induction false} LessEither(a: Text, b: Text)
    ensures a == b || Less(a, b) || Less(b, a)
    decreases |a|
  {
    if a != [] && b != [] {
      BeforeEither(a[0], b[0]);
      if a[0] == b[0] {
        assert a == [a[0]] + a[1..] && b == [b[0]] + b[1..];
        LessEither(a[1..], b[1..]);
      }
    }
  }

  lemma LessTotal(a: Text, b: Text)
    ensures a == b ==> !Less(a, b)
    ensures a != b ==> Less(a, b) || Less(b, a)
    ensures Less(a, b) ==> !Less(b, a)
  {
    LessIrreflexive(a);
    LessEither(a, b);
    if Less(a, b) && Less(b, a) {
      LessTransitive(a, b, a);
    }
  }

  // ---- The serialiser ----------------------------------------------------

  datatype Entry = Entry(key: Text, text: Text)

  function Insert(e: Entry, sorted: seq<Entry>): seq<Entry> {
    if sorted == [] || Less(e.key, sorted[0].key) then [e] + sorted else [sorted[0]] + Insert(e, sorted[1..])
  }

  function Sorted(entries: seq<Entry>): seq<Entry> {
    if entries == [] then [] else Insert(entries[0], Sorted(entries[1..]))
  }

  /** The rest of an object, its closing bracket included. */
  function Joined(entries: seq<Entry>): Text {
    if entries == [] then [CLOSE_OBJECT] else
      Quoted(entries[0].key) + [COLON] + entries[0].text
          + (if entries[1..] == [] then [] else [COMMA]) + Joined(entries[1..])
  }

  function Canon(v: Json, drop: set<Text>): Text {
    match v
    case JArr(items) => [OPEN_LIST] + CanonItems(items, drop)
    case JObj(members) => [OPEN_OBJECT] + Joined(Sorted(Entries(members, drop)))
    case _ => TextOf(v)
  }

  function CanonItems(items: Items, drop: set<Text>): Text {
    match items
    case NoItems => [CLOSE_LIST]
    case Item(head, tail) => Canon(head, drop) + (if tail.NoItems? then [] else [COMMA]) + CanonItems(tail, drop)
  }

  function Entries(members: Members, drop: set<Text>): seq<Entry> {
    match members
    case NoMembers => []
    case Member(key, value, rest) =>
      if key in drop then Entries(rest, drop) else [Entry(key, Canon(value, drop))] + Entries(rest, drop)
  }

  // ---- What a value means ------------------------------------------------

  /** Values without key order, dropped keys, or a difference between null and undefined. */
  datatype Meaning =
    | MNull | MBool(b: bool) | MNum(text: Text) | MStr(chars: Text)
    | MArr(items: seq<Meaning>) | MObj(members: map<Text, Meaning>)

  function MeaningOf(v: Json, drop: set<Text>): Meaning {
    match v
    case JNull => MNull
    case JUndef => MNull
    case JBool(b) => MBool(b)
    case JNum(text) => MNum(text)
    case JStr(chars) => MStr(chars)
    case JArr(items) => MArr(ListOf(items, drop))
    case JObj(members) => MObj(MapOf(members, drop))
  }

  function ListOf(items: Items, drop: set<Text>): seq<Meaning> {
    match items
    case NoItems => []
    case Item(head, tail) => [MeaningOf(head, drop)] + ListOf(tail, drop)
  }

  function MapOf(members: Members, drop: set<Text>): map<Text, Meaning> {
    match members
    case NoMembers => map[]
    case Member(key, value, rest) =>
      if key in drop then MapOf(rest, drop) else MapOf(rest, drop)[key := MeaningOf(value, drop)]
  }

  predicate HasKey(members: Members, key: Text) {
    members.Member? && (members.key == key || HasKey(members.rest, key))
  }

  /** Objects have distinct keys, and numbers are numbers. */
  predicate Proper(v: Json) {
    match v
    case JNum(text) => IsNumber(text)
    case JArr(items) => ProperItems(items)
    case JObj(members) => ProperMembers(members)
    case _ => true
  }

  predicate ProperItems(items: Items) {
    items.Item? ==> Proper(items.head) && ProperItems(items.tail)
  }

  predicate ProperMembers(members: Members) {
    members.Member? ==> !HasKey(members.rest, members.key) && Proper(members.value) && ProperMembers(members.rest)
  }

  // ---- Normal form -------------------------------------------------------

  function Normal(v: Json, drop: set<Text>): Json {
    match v
    case JUndef => JNull
    case JArr(items) => JArr(NormalItems(items, drop))
    case JObj(members) => JObj(NormalMembers(members, drop))
    case _ => v
  }

  function NormalItems(items: Items, drop: set<Text>): Items {
    match items
    case NoItems => NoItems
    case Item(head, tail) => Item(Normal(head, drop), NormalItems(tail, drop))
  }

  function InsertMember(key: Text, value: Json, sorted: Members): Members {
    if sorted.NoMembers? || Less(key, sorted.key) then Member(key, value, sorted)
    else Member(sorted.key, sorted.value, InsertMember(key, value, sorted.rest))
  }

  function NormalMembers(members: Members, drop: set<Text>): Members {
    match members
    case NoMembers => NoMembers
    case Member(key, value, rest) =>
      if key in drop then NormalMembers(rest, drop)
      else InsertMember(key, Normal(value, drop), NormalMembers(rest, drop))
  }

  predicate Below(key: Text, members: Members) {
    members.Member? ==> Less(key, members.key)
  }

  predicate IsNormal(v: Json, drop: set<Text>) {
    match v
    case JUndef => false
    case JNum(text) => IsNumber(text)
    case JArr(items) => AreNormal(items, drop)
    case JObj(members) => InOrder(members, drop)
    case _ => true
  }

  predicate AreNormal(items: Items, drop: set<Text>) {
    items.Item? ==> IsNormal(items.head, drop) && AreNormal(items.tail, drop)
  }

  predicate InOrder(members: Members, drop: set<Text>) {
    members.Member? ==>
      members.key !in drop && Below(members.key, members.rest)
          && IsNormal(members.value, drop) && InOrder(members.rest, drop)
  }

  // ---- The canonical text is the text of the normal form -----------------

  function EntriesOf(members: Members): seq<Entry> {
    match members
    case NoMembers => []
    case Member(key, value, rest) => [Entry(key, TextOf(value))] + EntriesOf(rest)
  }

  lemma {:induction false} JoinedIsText(members: Members)
    ensures Joined(EntriesOf(members)) == TextOfMembers(members)
    decreases members
  {
    if members.Member? {
      var entries := EntriesOf(members);
      assert entries[1..] == EntriesOf(members.rest);
      JoinedIsText(members.rest);
    }
  }

  lemma {:induction false} InsertIsInsert(key: Text, value: Json, sorted: Members)
    ensures EntriesOf(InsertMember(key, value, sorted)) == Insert(Entry(key, TextOf(value)), EntriesOf(sorted))
    decreases sorted
  {
    if sorted.Member? && !Less(key, sorted.key) {
      assert EntriesOf(sorted)[1..] == EntriesOf(sorted.rest);
      InsertIsInsert(key, value, sorted.rest);
    }
  }

  lemma {:induction false} CanonIsText(v: Json, drop: set<Text>)
    ensures Canon(v, drop) == TextOf(Normal(v, drop))
    decreases v
  {
    match v
    case JArr(items) => CanonItemsIsText(items, drop);
    case JObj(members) =>
      SortedIsNormal(members, drop);
      JoinedIsText(NormalMembers(members, drop));
    case _ =>
  }

  lemma {:induction false} CanonItemsIsText(items: Items, drop: set<Text>)
    ensures CanonItems(items, drop) == TextOfItems(NormalItems(items, drop))
    decreases items
  {
    if items.Item? {
      CanonIsText(items.head, drop);
      CanonItemsIsText(items.tail, drop);
    }
  }

  lemma {:induction false} SortedIsNormal(members: Members, drop: set<Text>)
    ensures Sorted(Entries(members, drop)) == EntriesOf(NormalMembers(members, drop))
    decreases members
  {
    if members.Member? {
      SortedIsNormal(members.rest, drop);
      if members.key !in drop {
        CanonIsText(members.value, drop);
        assert Entries(members, drop)[1..] == Entries(members.rest, drop);
        InsertIsInsert(members.key, Normal(members.value, drop), NormalMembers(members.rest, drop));
      }
    }
  }

  // ---- The normal form keeps the meaning and is unique -------------------

  lemma {:induction false} InsertKeys(key: Text, value: Json, sorted: Members, k: Text)
    ensures HasKey(InsertMember(key, value, sorted), k) <==> k == key || HasKey(sorted, k)
    decreases sorted
  {
    if sorted.Member? {
      InsertKeys(key, value, sorted.rest, k);
    }
  }

  lemma {:induction false} InsertFacts(key: Text, value: Json, sorted: Members, drop: set<Text>)
    requires InOrder(sorted, drop) && !HasKey(sorted, key) && key !in drop && IsNormal(value, drop)
    ensures var out := InsertMember(key, value, sorted);
      InOrder(out, drop) && MapOf(out, drop) == MapOf(sorted, drop)[key := MeaningOf(value, drop)]
    decreases sorted
  {
    if sorted.Member? && !Less(key, sorted.key) {
      LessTotal(key, sorted.key);
      InsertFacts(key, value, sorted.rest, drop);
      Commute(MapOf(sorted.rest, drop), key, MeaningOf(value, drop), sorted.key, MeaningOf(sorted.value, drop));
    }
  }

  lemma Commute(m: map<Text, Meaning>, a: Text, x: Meaning, b: Text, y: Meaning)
    requires a != b
    ensures m[a := x][b := y] == m[b := y][a := x]
  {
  }

  lemma {:induction false} NormalFacts(v: Json, drop: set<Text>)
    requires Proper(v)
    ensures IsNormal(Normal(v, drop), drop) && MeaningOf(Normal(v, drop), drop) == MeaningOf(v, drop)
    decreases v
  {
    match v
    case JArr(items) => NormalItemsFacts(items, drop);
    case JObj(members) => NormalMembersFacts(members, drop);
    case _ =>
  }

  lemma {:induction false} NormalItemsFacts(items: Items, drop: set<Text>)
    requires ProperItems(items)
    ensures AreNormal(NormalItems(items, drop), drop) && ListOf(NormalItems(items, drop), drop) == ListOf(items, drop)
    decreases items
  {
    if items.Item? {
      NormalFacts(items.head, drop);
      NormalItemsFacts(items.tail, drop);
    }
  }

  lemma {:induction false} NormalMembersFacts(members: Members, drop: set<Text>)
    requires ProperMembers(members)
    ensures var out := NormalMembers(members, drop);
      && InOrder(out, drop) && MapOf(out, drop) == MapOf(members, drop)
      && (forall k :: HasKey(out, k) ==> HasKey(members, k))
    decreases members
  {
    if members.Member? {
      NormalMembersFacts(members.rest, drop);
      if members.key !in drop {
        NormalFacts(members.value, drop);
        var value, sorted := Normal(members.value, drop), NormalMembers(members.rest, drop);
        InsertFacts(members.key, value, sorted, drop);
        forall k
          ensures HasKey(InsertMember(members.key, value, sorted), k) <==> k == members.key || HasKey(sorted, k)
        {
          InsertKeys(members.key, value, sorted, k);
        }
      }
    }
  }

  /** In a sorted object the keys of the rest come after the first. */
  lemma {:induction false} KeysAfter(members: Members, key: Text, drop: set<Text>)
    requires InOrder(members, drop) && Below(key, members)
    ensures key !in MapOf(members, drop)
    ensures forall k | k in MapOf(members, drop) :: Less(key, k)
    decreases members
  {
    if members.Member? {
      LessTotal(key, members.key);
      KeysAfter(members.rest, members.key, drop);
      forall k | k in MapOf(members.rest, drop) ensures Less(key, k) {
        LessTransitive(key, members.key, k);
      }
      LessTotal(key, key);
    }
  }

  lemma {:induction false} NormalUnique(u: Json, v: Json, drop: set<Text>)
    requires IsNormal(u, drop) && IsNormal(v, drop) && MeaningOf(u, drop) == MeaningOf(v, drop)
    ensures u == v
    decreases u
  {
    match u
    case JArr(items) => NormalItemsUnique(items, v.items, drop);
    case JObj(members) => NormalMembersUnique(members, v.members, drop);
    case _ =>
  }

  lemma {:induction false} NormalItemsUnique(a: Items, b: Items, drop: set<Text>)
    requires AreNormal(a, drop) && AreNormal(b, drop) && ListOf(a, drop) == ListOf(b, drop)
    ensures a == b
    decreases a
  {
    if a.Item? {
      assert ListOf(a, drop)[0] == ListOf(b, drop)[0];
      assert ListOf(a, drop)[1..] == ListOf(a.tail, drop) && ListOf(b, drop)[1..] == ListOf(b.tail, drop);
      NormalUnique(a.head, b.head, drop);
      NormalItemsUnique(a.tail, b.tail, drop);
    }
  }

  /** Sorted objects with the same map have the same first key. */
  lemma SameFirst(a: Members, b: Members, drop: set<Text>)
    requires InOrder(a, drop) && InOrder(b, drop) && MapOf(a, drop) == MapOf(b, drop)
    ensures a.Member? <==> b.Member?
    ensures a.Member? ==> a.key == b.key && MeaningOf(a.value, drop) == MeaningOf(b.value, drop)
    ensures a.Member? ==> MapOf(a.rest, drop) == MapOf(b.rest, drop)
  {
    assert a.Member? ==> a.key in MapOf(a, drop);
    assert b.Member? ==> b.key in MapOf(b, drop);
    if a.Member? {
      KeysAfter(a.rest, a.key, drop);
      KeysAfter(b.rest, b.key, drop);
      LessTotal(a.key, b.key);
      assert a.key == b.key;
      assert MapOf(a.rest, drop) == MapOf(a, drop) - {a.key};
      assert MapOf(b.rest, drop) == MapOf(b, drop) - {b.key};
      assert MapOf(a, drop)[a.key] == MapOf(b, drop)[b.key];
    }
  }

  lemma {:induction false} NormalMembersUnique(a: Members, b: Members, drop: set<Text>)
    requires InOrder(a, drop) && InOrder(b, drop) && MapOf(a, drop) == MapOf(b, drop)
    ensures a == b
    decreases a
  {
    SameFirst(a, b, drop);
    if a.Member? {
      NormalUnique(a.value, b.value, drop);
      NormalMembersUnique(a.rest, b.rest, drop);
    }
  }

  lemma {:induction false} NormalIsClean(v: Json, drop: set<Text>)
    requires IsNormal(v, drop)
    ensures Clean(v)
    decreases v
  {
    match v
    case JArr(items) => NormalItemsClean(items, drop);
    case JObj(members) => NormalMembersClean(members, drop);
    case _ =>
  }

  lemma {:induction false} NormalItemsClean(items: Items, drop: set<Text>)
    requires AreNormal(items, drop)
    ensures CleanItems(items)
    decreases items
  {
    if items.Item? {
      NormalIsClean(items.head, drop);
      NormalItemsClean(items.tail, drop);
    }
  }

  lemma {:induction false} NormalMembersClean(members: Members, drop: set<Text>)
    requires InOrder(members, drop)
    ensures CleanMembers(members)
    decreases members
  {
    if members.Member? {
      NormalIsClean(members.value, drop);
      NormalMembersClean(members.rest, drop);
    }
  }

  // ---- The main result ---------------------------------------------------

  /** Two values serialise equally exactly when they mean the same. */
  lemma CanonInjective(u: Json, v: Json, drop: set<Text>)
    requires Proper(u) && Proper(v)
    ensures Canon(u, drop) == Canon(v, drop) <==> MeaningOf(u, drop) == MeaningOf(v, drop)
  {
    var m, n := Normal(u, drop), Normal(v, drop);
    CanonIsText(u, drop);
    CanonIsText(v, drop);
    NormalFacts(u, drop);
    NormalFacts(v, drop);
    if Canon(u, drop) == Canon(v, drop) {
      NormalIsClean(m, drop);
      NormalIsClean(n, drop);
      assert TextOf(m) + [] == TextOf(n) + [];
      TextUnique(m, [], n, []);
    }
    if MeaningOf(u, drop) == MeaningOf(v, drop) {
      NormalUnique(m, n, drop);
    }
  }

  // ---- Fields ------------------------------------------------------------

  function Lookup(members: Members, key: Text): Json {
    match members
    case NoMembers => JUndef
    case Member(k, value, rest) => if k == key then value else Lookup(rest, key)
  }

  /** rec.key; anything but an object has no such field. */
  function Field(rec: Json, key: Text): Json {
    if rec.JObj? then Lookup(rec.members, key) else JUndef
  }

  lemma {:induction false} MapOfLookup(members: Members, key: Text, drop: set<Text>)
    requires ProperMembers(members) && key !in drop
    ensures key in MapOf(members, drop) <==> HasKey(members, key)
    ensures HasKey(members, key) ==> MapOf(members, drop)[key] == MeaningOf(Lookup(members, key), drop)
    ensures !HasKey(members, key) ==> Lookup(members, key) == JUndef
    decreases members
  {
    if members.Member? {
      MapOfLookup(members.rest, key, drop);
    }
  }

  /** Values that mean the same hold the same text under a key that is not dropped. */
  lemma SameField(x: Json, y: Json, key: Text, text: Text, drop: set<Text>)
    requires Proper(x) && Proper(y) && key !in drop && MeaningOf(x, drop) == MeaningOf(y, drop)
    requires Field(x, key) == JStr(text)
    ensures Field(y, key) == JStr(text)
  {
    MapOfLookup(x.members, key, drop);
    MapOfLookup(y.members, key, drop);
  }

  // ---- Through JSON.stringify and JSON.parse -----------------------------

  /** What a value is once written to disk and read back: members that are undefined go. */
  function OnDisk(v: Json): Json {
    match v
    case JUndef => JNull
    case JArr(items) => JArr(ItemsOnDisk(items))
    case JObj(members) => JObj(MembersOnDisk(members))
    case _ => v
  }

  function ItemsOnDisk(items: Items): Items {
    match items
    case NoItems => NoItems
    case Item(head, tail) => Item(OnDisk(head), ItemsOnDisk(tail))
  }

  function MembersOnDisk(members: Members): Members {
    match members
    case NoMembers => NoMembers
    case Member(key, value, rest) =>
      if value.JUndef? then MembersOnDisk(rest) else Member(key, OnDisk(value), MembersOnDisk(rest))
  }

  /** Reading back gives a value with nothing undefined in it, and one that had nothing
      undefined as it was. */
  lemma {:induction false} OnDiskIsClean(v: Json)
    requires Proper(v)
    ensures Clean(OnDisk(v)) && (Clean(v) ==> OnDisk(v) == v)
    decreases v
  {
    match v
    case JArr(items) => ItemsOnDiskClean(items);
    case JObj(members) => MembersOnDiskClean(members);
    case _ =>
  }

  lemma {:induction false} ItemsOnDiskClean(items: Items)
    requires ProperItems(items)
    ensures CleanItems(ItemsOnDisk(items)) && (CleanItems(items) ==> ItemsOnDisk(items) == items)
    decreases items
  {
    if items.Item? {
      OnDiskIsClean(items.head);
      ItemsOnDiskClean(items.tail);
    }
  }

  lemma {:induction false} MembersOnDiskClean(members: Members)
    requires ProperMembers(members)
    ensures CleanMembers(MembersOnDisk(members)) && (CleanMembers(members) ==> MembersOnDisk(members) == members)
    decreases members
  {
    if members.Member? {
      OnDiskIsClean(members.value);
      MembersOnDiskClean(members.rest);
    }
  }

  /** No member is undefined, other than under a dropped key. */
  predicate Whole(v: Json, drop: set<Text>) {
    match v
    case JArr(items) => WholeItems(items, drop)
    case JObj(members) => WholeMembers(members, drop)
    case _ => true
  }

  predicate WholeItems(items: Items, drop: set<Text>) {
    items.Item? ==> Whole(items.head, drop) && WholeItems(items.tail, drop)
  }

  predicate WholeMembers(members: Members, drop: set<Text>) {
    members.Member? ==>
      (members.key in drop || (!members.value.JUndef? && Whole(members.value, drop)))
          && WholeMembers(members.rest, drop)
  }

  lemma {:induction false} OnDiskFacts(v: Json, drop: set<Text>)
    requires Proper(v)
    ensures Proper(OnDisk(v))
    ensures MeaningOf(OnDisk(v), drop) == MeaningOf(v, drop) <==> Whole(v, drop)
    decreases v
  {
    match v
    case JArr(items) => ItemsOnDiskFacts(items, drop);
    case JObj(members) => MembersOnDiskFacts(members, drop);
    case _ =>
  }

  lemma {:induction false} ItemsOnDiskFacts(items: Items, drop: set<Text>)
    requires ProperItems(items)
    ensures ProperItems(ItemsOnDisk(items)) && |ListOf(ItemsOnDisk(items), drop)| == |ListOf(items, drop)|
    ensures ListOf(ItemsOnDisk(items), drop) == ListOf(items, drop) <==> WholeItems(items, drop)
    decreases items
  {
    if items.Item? {
      OnDiskFacts(items.head, drop);
      ItemsOnDiskFacts(items.tail, drop);
      var x, y := ListOf(ItemsOnDisk(items), drop), ListOf(items, drop);
      assert x[0] == MeaningOf(OnDisk(items.head), drop) && y[0] == MeaningOf(items.head, drop);
      assert x[1..] == ListOf(ItemsOnDisk(items.tail), drop) && y[1..] == ListOf(items.tail, drop);
    }
  }

  lemma {:induction false} KeysOfMap(members: Members, drop: set<Text>)
    ensures forall k | k in MapOf(members, drop) :: HasKey(members, k)
    decreases members
  {
    if members.Member? {
      KeysOfMap(members.rest, drop);
    }
  }

  lemma {:induction false} MembersOnDiskFacts(members: Members, drop: set<Text>)
    requires ProperMembers(members)
    ensures var out := MembersOnDisk(members);
      && ProperMembers(out) && (forall k :: HasKey(out, k) ==> HasKey(members, k))
      && (MapOf(out, drop) == MapOf(members, drop) <==> WholeMembers(members, drop))
    decreases members
  {
    if members.Member? {
      OnDiskFacts(members.value, drop);
      MembersOnDiskFacts(members.rest, drop);
      MapsOnDisk(members, drop);
    }
  }

  lemma MapsOnDisk(members: Members, drop: set<Text>)
    requires members.Member? && ProperMembers(members)
    requires forall k :: HasKey(MembersOnDisk(members.rest), k) ==> HasKey(members.rest, k)
    ensures var same := MapOf(MembersOnDisk(members.rest), drop) == MapOf(members.rest, drop);
      MapOf(MembersOnDisk(members), drop) == MapOf(members, drop) <==>
        (if members.key in drop then same
         else (same && !members.value.JUndef?
               && MeaningOf(OnDisk(members.value), drop) == MeaningOf(members.value, drop)))
  {
    var key, x, y := members.key, MapOf(MembersOnDisk(members.rest), drop), MapOf(members.rest, drop);
    KeysOfMap(MembersOnDisk(members.rest), drop);
    KeysOfMap(members.rest, drop);
    assert key !in x && key !in y;
    if key !in drop {
      var m := MeaningOf(members.value, drop);
      assert y[key := m] - {key} == y && y[key := m][key] == m;
      if !members.value.JUndef? {
        var n := MeaningOf(OnDisk(members.value), drop);
        assert x[key := n] - {key} == x && x[key := n][key] == n;
      }
    }
  }

  /** A value read back from disk serialises as before exactly when no member of it was
      undefined. */
  lemma DiskKeepsCanonExactly(v: Json, drop: set<Text>)
    requires Proper(v)
    ensures Proper(OnDisk(v)) && (Canon(OnDisk(v), drop) == Canon(v, drop) <==> Whole(v, drop))
  {
    OnDiskFacts(v, drop);
    CanonInjective(OnDisk(v), v, drop);
  }
}
