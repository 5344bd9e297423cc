/**
 JSON values and their text, as section 7 of RFC 8259 quotes strings and JSON.stringify
 writes them: text is UTF-16 code units, and a unit that is no part of a pair is escaped.
 Text is uniquely readable: what follows a value never changes what the value was.
 */
module JsonText {

  type Text = seq<bv16>

  /** A number is its shortest decimal text; members keep their order. */
  datatype Json =
    | JNull | JUndef | JBool(b: bool) | JNum(text: Text) | JStr(chars: Text)
    | JArr(items: Items) | JObj(members: Members)

  datatype Items = NoItems | Item(head: Json, tail: Items)

  datatype Members = NoMembers | Member(key: Text, value: Json, rest: Members)

  const QUOTE: bv16 := 34
  const COMMA: bv16 := 44
  const COLON: bv16 := 58
  const OPEN_LIST: bv16 := 91
  const CLOSE_LIST: bv16 := 93
  const BACKSLASH: bv16 := 92
  const OPEN_OBJECT: bv16 := 123
  const CLOSE_OBJECT: bv16 := 125

  // ---- Strings -----------------------------------------------------------

  predicate IsHigh(u: bv16) {
    0xD800 <= u <= 0xDBFF
  }

  predicate IsLow(u: bv16) {
    0xDC00 <= u <= 0xDFFF
  }

  function HexDigit(nibble: bv16): bv16 {
    if nibble < 10 then 48 + nibble else 87 + nibble
  }

  /** Backslash, u and four hexadecimal digits. */
  function Escape(u: bv16): Text {
    [BACKSLASH, 117, HexDigit(u >> 12), HexDigit((u >> 8) & 15), HexDigit((u >> 4) & 15), HexDigit(u & 15)]
  }

  function QuoteUnit(u: bv16): Text {
    if u == QUOTE || u == BACKSLASH then [BACKSLASH, u]
    else if u == 8 then [BACKSLASH, 98]
    else if u == 9 then [BACKSLASH, 116]
    else if u == 10 then [BACKSLASH, 110]
    else if u == 12 then [BACKSLASH, 102]
    else if u == 13 then [BACKSLASH, 114]
    else if u < 32 || IsHigh(u) || IsLow(u) then Escape(u)
    else [u]
  }

  predicate StartsPair(s: Text) {
    |s| >= 2 && IsHigh(s[0]) && IsLow(s[1])
  }

  function QuoteRest(s: Text): Text {
    if s == [] then [QUOTE]
    else if StartsPair(s) then [s[0], s[1]] + QuoteRest(s[2..])
    else QuoteUnit(s[0]) + QuoteRest(s[1..])
  }

  function Quoted(s: Text): Text {
    [QUOTE] + QuoteRest(s)
  }

  /** The units one step of QuoteRest writes. */
  function Chunk(s: Text): Text {
    if s == [] then [QUOTE] else if StartsPair(s) then s[..2] else QuoteUnit(s[0])
  }

  lemma HexInjective(u: bv16, w: bv16)
    requires Escape(u) == Escape(w)
    ensures u == w
  {
    var a, b := Escape(u), Escape(w);
    assert a[2] == b[2] && a[3] == b[3] && a[4] == b[4] && a[5] == b[5];
  }

  /** A chunk's first two units tell its length. */
  lemma ChunkLength(s: Text)
    ensures var c := Chunk(s);
      && c != [] && (c[0] == BACKSLASH || IsHigh(c[0]) ==> |c| >= 2)
      && |c| == if c[0] == BACKSLASH then (if c[1] == 117 then 6 else 2) else if IsHigh(c[0]) then 2 else 1
  {
  }

  lemma ChunkUnique(a: Text, x: Text, b: Text, y: Text)
    requires Chunk(a) + x == Chunk(b) + y
    ensures Chunk(a) == Chunk(b) && x == y
  {
    var p, q := Chunk(a), Chunk(b);
    ChunkLength(a);
    ChunkLength(b);
    assert (p + x)[0] == p[0] && (q + y)[0] == q[0];
    assert |p| > 1 ==> (p + x)[1] == p[1];
    assert |q| > 1 ==> (q + y)[1] == q[1];
    assert p == (p + x)[..|p|] == (q + y)[..|q|] == q;
    Cancel(p, x, y);
  }

  /** A chunk stands for one or two units, and tells them. */
  lemma ChunkMeans(a: Text, b: Text)
    requires Chunk(a) == Chunk(b)
    ensures (a == [] <==> b == []) && (StartsPair(a) <==> StartsPair(b))
    ensures a != [] ==> a[0] == b[0]
    ensures StartsPair(a) ==> a[1] == b[1]
  {
    ChunkLength(a);
    if |Chunk(a)| == 6 {
      HexInjective(a[0], b[0]);
    }
  }

  /** What is left after the units of the first chunk. */
  function AfterChunk(a: Text): Text {
    if a == [] then [] else if StartsPair(a) then a[2..] else a[1..]
  }

  lemma QuoteSplit(a: Text, s: Text)
    ensures QuoteRest(a) + s == Chunk(a) + if a == [] then s else QuoteRest(AfterChunk(a)) + s
  {
    if a != [] {
      assert QuoteRest(a) == Chunk(a) + QuoteRest(AfterChunk(a));
    }
  }

  lemma {:induction false} QuotedUnique(a: Text, s: Text, b: Text, t: Text)
    requires QuoteRest(a) + s == QuoteRest(b) + t
    ensures a == b && s == t
    decreases |a|
  {
    QuoteSplit(a, s);
    QuoteSplit(b, t);
    var behindA := if a == [] then s else QuoteRest(AfterChunk(a)) + s;
    var behindB := if b == [] then t else QuoteRest(AfterChunk(b)) + t;
    ChunkUnique(a, behindA, b, behindB);
    ChunkMeans(a, b);
    if a != [] {
      QuotedUnique(AfterChunk(a), s, AfterChunk(b), t);
      SameUnits(a, b);
    }
  }

  lemma SameUnits(a: Text, b: Text)
    requires a != [] && b != [] && Chunk(a) == Chunk(b) && AfterChunk(a) == AfterChunk(b)
    ensures a == b
  {
    ChunkMeans(a, b);
    if StartsPair(a) {
      assert a == [a[0], a[1]] + a[2..] && b == [b[0], b[1]] + b[2..];
    } else {
      assert a == [a[0]] + a[1..] && b == [b[0]] + b[1..];
    }
  }

  lemma Cancel(p: Text, s: Text, t: Text)
    requires p + s == p + t
    ensures s == t
  {
    assert s == (p + s)[|p|..] == (p + t)[|p|..] == t;
  }

  // ---- Values ------------------------------------------------------------

  const NULL: Text := [110, 117, 108, 108]
  const TRUE: Text := [116, 114, 117, 101]
  const FALSE: Text := [102, 97, 108, 115, 101]

  function TextOf(v: Json): Text {
    match v
    case JNull => NULL
    case JUndef => NULL
    case JBool(b) => if b then TRUE else FALSE
    case JNum(text) => text
    case JStr(chars) => Quoted(chars)
    case JArr(items) => [OPEN_LIST] + TextOfItems(items)
    case JObj(members) => [OPEN_OBJECT] + TextOfMembers(members)
  }

  /** The rest of a list, its closing bracket included. */
  function TextOfItems(items: Items): Text {
    match items
    case NoItems => [CLOSE_LIST]
    case Item(head, tail) => TextOf(head) + (if tail.NoItems? then [] else [COMMA]) + TextOfItems(tail)
  }

  function TextOfMembers(members: Members): Text {
    match members
    case NoMembers => [CLOSE_OBJECT]
    case Member(key, value, rest) =>
      Quoted(key) + [COLON] + TextOf(value) + (if rest.NoMembers? then [] else [COMMA]) + TextOfMembers(rest)
  }

  predicate IsDigit(u: bv16) {
    48 <= u <= 57
  }

  predicate IsNumberUnit(u: bv16) {
    IsDigit(u) || u == 45 || u == 43 || u == 46 || u == 69 || u == 101
  }

  predicate IsNumber(text: Text) {
    && text != [] && (IsDigit(text[0]) || text[0] == 45)
    && forall i | 0 <= i < |text| :: IsNumberUnit(text[i])
  }

  /** Nothing undefined, and numbers that are numbers. */
  predicate Clean(v: Json) {
    match v
    case JUndef => false
    case JNum(text) => IsNumber(text)
    case JArr(items) => CleanItems(items)
    case JObj(members) => CleanMembers(members)
    case _ => true
  }

  predicate CleanItems(items: Items) {
    items.Item? ==> Clean(items.head) && CleanItems(items.tail)
  }

  predicate CleanMembers(members: Members) {
    members.Member? ==> Clean(members.value) && CleanMembers(members.rest)
  }

  // ---- Unique reading ----------------------------------------------------

  /** What may follow a value: nothing, a comma, or a closing bracket. */
  predicate Follows(s: Text) {
    s == [] || s[0] == COMMA || s[0] == CLOSE_LIST || s[0] == CLOSE_OBJECT
  }

  /** A value's first unit tells its kind. */
  lemma FirstUnit(v: Json)
    requires Clean(v)
    ensures TextOf(v) != []
    ensures var u := TextOf(v)[0];
      match v
      case JNull => u == 110
      case JBool(b) => u == if b then 116 else 102
      case JNum(_) => IsDigit(u) || u == 45
      case JStr(_) => u == QUOTE
      case JArr(_) => u == OPEN_LIST
      case JObj(_) => u == OPEN_OBJECT
      case JUndef => false
  {
  }

  lemma FirstOf(a: Text, s: Text)
    ensures a != [] ==> (a + s)[0] == a[0]
    ensures |a + s| == |a| + |s|
  {
  }

  /** Only the end of a number can be followed. */
  lemma EndsWith(a: Text, s: Text, t: Text)
    requires forall i | 0 <= i < |a| :: IsNumberUnit(a[i])
    requires Follows(t) && a + s == t
    ensures a == []
  {
    FirstOf(a, s);
  }

  lemma {:induction false} NumberUnique(a: Text, s: Text, b: Text, t: Text)
    requires forall i | 0 <= i < |a| :: IsNumberUnit(a[i])
    requires forall i | 0 <= i < |b| :: IsNumberUnit(b[i])
    requires Follows(s) && Follows(t) && a + s == b + t
    ensures a == b && s == t
    decreases |a|
  {
    if b == [] {
      assert b + t == t;
      EndsWith(a, s, t);
      assert a + s == s;
    } else if a == [] {
      assert a + s == s;
      EndsWith(b, t, s);
    } else {
      assert (a + s)[0] == a[0] && (b + t)[0] == b[0];
      assert (a + s)[1..] == a[1..] + s && (b + t)[1..] == b[1..] + t;
      NumberUnique(a[1..], s, b[1..], t);
      assert a == [a[0]] + a[1..] && b == [b[0]] + b[1..];
    }
  }

  lemma SameKind(u: Json, s: Text, v: Json, t: Text)
    requires Clean(u) && Clean(v) && TextOf(u) + s == TextOf(v) + t
    ensures match u
      case JNull => v == JNull
      case JBool(b) => v == JBool(b)
      case JNum(_) => v.JNum?
      case JStr(_) => v.JStr?
      case JArr(_) => v.JArr?
      case JObj(_) => v.JObj?
      case JUndef => false
  {
    FirstUnit(u);
    FirstUnit(v);
    assert (TextOf(u) + s)[0] == TextOf(u)[0] && (TextOf(v) + t)[0] == TextOf(v)[0];
  }

  /** Two values whose texts, with what follows them, are one text are the same value. */
  lemma {:induction false} TextUnique(u: Json, s: Text, v: Json, t: Text)
    requires Clean(u) && Clean(v) && Follows(s) && Follows(t)
    requires TextOf(u) + s == TextOf(v) + t
    ensures u == v && s == t
    decreases u, 0
  {
    SameKind(u, s, v, t);
    match u
    case JNull => Cancel(NULL, s, t);
    case JBool(b) => Cancel(TextOf(u), s, t);
    case JNum(text) => NumberUnique(text, s, v.text, t);
    case JStr(chars) =>
      Opened(QUOTE, QuoteRest(chars), s, QuoteRest(v.chars), t);
      QuotedUnique(chars, s, v.chars, t);
    case JArr(items) =>
      Opened(OPEN_LIST, TextOfItems(items), s, TextOfItems(v.items), t);
      ItemsUnique(items, s, v.items, t);
    case JObj(members) =>
      Opened(OPEN_OBJECT, TextOfMembers(members), s, TextOfMembers(v.members), t);
      MembersUnique(members, s, v.members, t);
  }

  lemma Opened(mark: bv16, x: Text, s: Text, y: Text, t: Text)
    requires [mark] + x + s == [mark] + y + t
    ensures x + s == y + t
  {
    assert [mark] + x + s == [mark] + (x + s) && [mark] + y + t == [mark] + (y + t);
    Cancel([mark], x + s, y + t);
  }

  /** What follows an item: a comma and more, or the end. */
  function Behind(tail: Items, s: Text): (r: Text)
    ensures Follows(r)
  {
    (if tail.NoItems? then [] else [COMMA]) + TextOfItems(tail) + s
  }

  lemma ItemText(items: Items, s: Text)
    requires items.Item?
    ensures TextOfItems(items) + s == TextOf(items.head) + Behind(items.tail, s)
  {
    var sep := if items.tail.NoItems? then [] else [COMMA];
    assert TextOfItems(items) == TextOf(items.head) + sep + TextOfItems(items.tail);
  }

  lemma {:induction false} ItemsUnique(a: Items, s: Text, b: Items, t: Text)
    requires CleanItems(a) && CleanItems(b) && TextOfItems(a) + s == TextOfItems(b) + t
    ensures a == b && s == t
    decreases a, 0
  {
    BracketOrValue(a, s);
    BracketOrValue(b, t);
    if a.NoItems? {
      Cancel([CLOSE_LIST], s, t);
    } else {
      ItemText(a, s);
      ItemText(b, t);
      TextUnique(a.head, Behind(a.tail, s), b.head, Behind(b.tail, t));
      TailsUnique(a.tail, s, b.tail, t);
    }
  }

  lemma BracketOrValue(a: Items, s: Text)
    requires CleanItems(a)
    ensures TextOfItems(a) + s != [] && ((TextOfItems(a) + s)[0] == CLOSE_LIST <==> a.NoItems?)
  {
    if a.Item? {
      FirstUnit(a.head);
      ItemText(a, s);
    }
  }

  lemma BehindSplit(tail: Items, s: Text)
    ensures Behind(tail, s) == if tail.NoItems? then TextOfItems(tail) + s else [COMMA] + (TextOfItems(tail) + s)
  {
  }

  lemma {:induction false} TailsUnique(a: Items, s: Text, b: Items, t: Text)
    requires CleanItems(a) && CleanItems(b) && Behind(a, s) == Behind(b, t)
    ensures a == b && s == t
    decreases a, 1
  {
    BehindSplit(a, s);
    BehindSplit(b, t);
    BracketOrValue(a, s);
    BracketOrValue(b, t);
    if a.Item? {
      Cancel([COMMA], TextOfItems(a) + s, TextOfItems(b) + t);
    }
    ItemsUnique(a, s, b, t);
  }

  function BehindMember(rest: Members, s: Text): (r: Text)
    ensures Follows(r)
  {
    (if rest.NoMembers? then [] else [COMMA]) + TextOfMembers(rest) + s
  }

  lemma MemberText(members: Members, s: Text)
    requires members.Member?
    ensures TextOfMembers(members) + s
         == [QUOTE] + (QuoteRest(members.key) + ([COLON] + (TextOf(members.value) + BehindMember(members.rest, s))))
  {
    var sep := if members.rest.NoMembers? then [] else [COMMA];
    Regroup(QuoteRest(members.key), TextOf(members.value), sep, TextOfMembers(members.rest), s);
  }

  lemma Regroup(key: Text, value: Text, sep: Text, rest: Text, s: Text)
    ensures [QUOTE] + key + [COLON] + value + sep + rest + s == [QUOTE] + (key + ([COLON] + (value + (sep + rest + s))))
  {
    var x := sep + rest + s;
    assert [QUOTE] + key + [COLON] + value + sep + rest + s == ([QUOTE] + key + [COLON] + value) + x;
    assert ([QUOTE] + key + [COLON] + value) + x == ([QUOTE] + key + [COLON]) + (value + x);
    var y := value + x;
    assert ([QUOTE] + key + [COLON]) + y == ([QUOTE] + key) + ([COLON] + y);
    assert ([QUOTE] + key) + ([COLON] + y) == [QUOTE] + (key + ([COLON] + y));
  }

  lemma {:induction false} MembersUnique(a: Members, s: Text, b: Members, t: Text)
    requires CleanMembers(a) && CleanMembers(b) && TextOfMembers(a) + s == TextOfMembers(b) + t
    ensures a == b && s == t
    decreases a, 0
  {
    BracketOrKey(a, s);
    BracketOrKey(b, t);
    if a.NoMembers? {
      Cancel([CLOSE_OBJECT], s, t);
    } else {
      MemberText(a, s);
      MemberText(b, t);
      var x, y := TextOf(a.value) + BehindMember(a.rest, s), TextOf(b.value) + BehindMember(b.rest, t);
      Cancel([QUOTE], QuoteRest(a.key) + ([COLON] + x), QuoteRest(b.key) + ([COLON] + y));
      QuotedUnique(a.key, [COLON] + x, b.key, [COLON] + y);
      Cancel([COLON], x, y);
      TextUnique(a.value, BehindMember(a.rest, s), b.value, BehindMember(b.rest, t));
      RestsUnique(a.rest, s, b.rest, t);
    }
  }

  lemma BracketOrKey(a: Members, s: Text)
    ensures TextOfMembers(a) + s != [] && ((TextOfMembers(a) + s)[0] == CLOSE_OBJECT <==> a.NoMembers?)
  {
    if a.Member? {
      MemberText(a, s);
    }
  }

  lemma BehindMemberSplit(rest: Members, s: Text)
    ensures BehindMember(rest, s)
         == if rest.NoMembers? then TextOfMembers(rest) + s else [COMMA] + (TextOfMembers(rest) + s)
  {
  }

  lemma {:induction false} RestsUnique(a: Members, s: Text, b: Members, t: Text)
    requires CleanMembers(a) && CleanMembers(b) && BehindMember(a, s) == BehindMember(b, t)
    ensures a == b && s == t
    decreases a, 1
  {
    BehindMemberSplit(a, s);
    BehindMemberSplit(b, t);
    BracketOrKey(a, s);
    BracketOrKey(b, t);
    if a.Member? {
      Cancel([COMMA], TextOfMembers(a) + s, TextOfMembers(b) + t);
    }
    MembersUnique(a, s, b, t);
  }

  // ---- What is escaped ---------------------------------------------------

  /** Control characters without a short escape and lone surrogates are written by number,
      quotes, backslashes and the other control characters by two characters, all else as is. */
  lemma EscapedExactly(u: bv16)
    ensures |QuoteUnit(u)| == 6 <==> (u < 32 && u !in {8, 9, 10, 12, 13}) || 0xD800 <= u <= 0xDFFF
    ensures |QuoteUnit(u)| == 2 <==> u in {8, 9, 10, 12, 13, 34, 92}
    ensures |QuoteUnit(u)| == 1 ==> QuoteUnit(u) == [u]
    ensures |QuoteUnit(u)| in {1, 2, 6}
  {
  }

  lemma PairsExactly(s: Text)
    ensures StartsPair(s) <==> |s| >= 2 && 0xD800 <= s[0] <= 0xDBFF && 0xDC00 <= s[1] <= 0xDFFF
  {
  }

  // ---- No line breaks ----------------------------------------------------

  const LINE_FEED: bv16 := 10

  lemma UnitOneLine(u: bv16)
    ensures LINE_FEED !in QuoteUnit(u)
  {
  }

  lemma {:induction false} QuotedOneLine(s: Text)
    ensures LINE_FEED !in QuoteRest(s)
    decreases |s|
  {
    if StartsPair(s) {
      QuotedOneLine(s[2..]);
    } else if s != [] {
      UnitOneLine(s[0]);
      QuotedOneLine(s[1..]);
    }
  }

  /** The text of a value has no line break in it: strings escape theirs. */
  lemma {:induction false} TextOneLine(v: Json)
    requires Clean(v)
    ensures LINE_FEED !in TextOf(v)
    decreases v
  {
    match v
    case JStr(chars) => QuotedOneLine(chars);
    case JArr(items) => ItemsOneLine(items);
    case JObj(members) => MembersOneLine(members);
    case _ =>
  }

  lemma {:induction false} ItemsOneLine(items: Items)
    requires CleanItems(items)
    ensures LINE_FEED !in TextOfItems(items)
    decreases items
  {
    if items.Item? {
      TextOneLine(items.head);
      ItemsOneLine(items.tail);
    }
  }

  lemma {:induction false} MembersOneLine(members: Members)
    requires CleanMembers(members)
    ensures LINE_FEED !in TextOfMembers(members)
    decreases members
  {
    if members.Member? {
      QuotedOneLine(members.key);
      TextOneLine(members.value);
      MembersOneLine(members.rest);
    }
  }
}
