/**
 Reading JSON text back, by the grammar of RFC 8259 without white space: what a reader of the
 log or of a message makes of a written value is that value.
 */
module JsonReader {
  import opened Common
  import opened JsonText

  // ---- Strings -----------------------------------------------------------

  function HexValue(u: bv16): Option<bv16> {
    if 48 <= u <= 57 then Some(u - 48)
    else if 97 <= u <= 102 then Some(u - 87)
    else if 65 <= u <= 70 then Some(u - 55)
    else None
  }

  function FourHex(t: Text): Option<bv16>
    requires |t| == 4
  {
    var a, b, c, d := HexValue(t[0]), HexValue(t[1]), HexValue(t[2]), HexValue(t[3]);
    if a.None? || b.None? || c.None? || d.None? then None
    else Some((a.value << 12) | (b.value << 8) | (c.value << 4) | d.value)
  }

  /** What an escape of two characters stands for. */
  function Escaped(u: bv16): Option<bv16> {
    if u == 34 || u == 92 || u == 47 then Some(u)
    else if u == 98 then Some(8)
    else if u == 102 then Some(12)
    else if u == 110 then Some(10)
    else if u == 114 then Some(13)
    else if u == 116 then Some(9)
    else None
  }

  function Prepend(u: bv16, r: Option<(Text, Text)>): Option<(Text, Text)> {
    match r case None => None case Some((chars, rest)) => Some(([u] + chars, rest))
  }

  /** A string behind its opening quote, and what follows it. */
  function ReadString(t: Text): (r: Option<(Text, Text)>)
    ensures r.Some? ==> |r.value.1| < |t|
    decreases |t|
  {
    if t == [] || t[0] < 32 then None
    else if t[0] == 34 then Some(([], t[1..]))
    else if t[0] != 92 then Prepend(t[0], ReadString(t[1..]))
    else if |t| >= 6 && t[1] == 117 then
      var u := FourHex(t[2..6]);
      if u.None? then None else Prepend(u.value, ReadString(t[6..]))
    else if |t| >= 2 && Escaped(t[1]).Some? then Prepend(Escaped(t[1]).value, ReadString(t[2..]))
    else None
  }

  lemma HexReads(n: bv16)
    requires n < 16
    ensures HexValue(HexDigit(n)) == Some(n)
  {
  }

  lemma Nibbles(u: bv16)
    ensures u >> 12 < 16 && (u >> 8) & 15 < 16 && (u >> 4) & 15 < 16 && u & 15 < 16
    ensures ((u >> 12) << 12) | (((u >> 8) & 15) << 8) | (((u >> 4) & 15) << 4) | (u & 15) == u
  {
  }

  lemma FourRead(a: bv16, b: bv16, c: bv16, d: bv16)
    requires a < 16 && b < 16 && c < 16 && d < 16
    ensures FourHex([HexDigit(a), HexDigit(b), HexDigit(c), HexDigit(d)]) == Some((a << 12) | (b << 8) | (c << 4) | d)
  {
    HexReads(a);
    HexReads(b);
    HexReads(c);
    HexReads(d);
  }

  lemma SixRead(four: Text, u: bv16, x: Text)
    requires |four| == 4 && FourHex(four) == Some(u)
    ensures ReadString([BACKSLASH, 117] + four + x) == Prepend(u, ReadString(x))
  {
    var t := [BACKSLASH, 117] + four + x;
    assert t[2..6] == four && t[6..] == x && t[0] == 92 && t[1] == 117;
  }

  lemma EscapeReads(u: bv16, x: Text)
    ensures ReadString(Escape(u) + x) == Prepend(u, ReadString(x))
  {
    var four := [HexDigit(u >> 12), HexDigit((u >> 8) & 15), HexDigit((u >> 4) & 15), HexDigit(u & 15)];
    Nibbles(u);
    FourRead(u >> 12, (u >> 8) & 15, (u >> 4) & 15, u & 15);
    SixRead(four, u, x);
    assert Escape(u) == [BACKSLASH, 117] + four;
  }

  lemma ShortReads(u: bv16, e: bv16, x: Text)
    requires e != 117 && Escaped(e) == Some(u)
    ensures ReadString([BACKSLASH, e] + x) == Prepend(u, ReadString(x))
  {
    var t := [BACKSLASH, e] + x;
    assert t[0] == 92 && t[1] == e && t[2..] == x;
  }

  lemma PlainReads(u: bv16, x: Text)
    requires u >= 32 && u != QUOTE && u != BACKSLASH
    ensures ReadString([u] + x) == Prepend(u, ReadString(x))
  {
    assert ([u] + x)[1..] == x;
  }

  lemma UnitReads(u: bv16, x: Text)
    ensures ReadString(QuoteUnit(u) + x) == Prepend(u, ReadString(x))
  {
    if u == QUOTE || u == BACKSLASH {
      ShortReads(u, u, x);
    } else if u == 8 {
      ShortReads(u, 98, x);
    } else if u == 9 {
      ShortReads(u, 116, x);
    } else if u == 10 {
      ShortReads(u, 110, x);
    } else if u == 12 {
      ShortReads(u, 102, x);
    } else if u == 13 {
      ShortReads(u, 114, x);
    } else if u < 32 || IsHigh(u) || IsLow(u) {
      EscapeReads(u, x);
    } else {
      PlainReads(u, x);
    }
  }

  lemma PairReads(high: bv16, low: bv16, x: Text)
    requires IsHigh(high) && IsLow(low)
    ensures ReadString([high, low] + x) == Prepend(high, Prepend(low, ReadString(x)))
  {
    PlainReads(low, x);
    PlainReads(high, [low] + x);
    assert [high, low] + x == [high] + ([low] + x);
  }

  ghost predicate Reads(s: Text, x: Text) {
    ReadString(QuoteRest(s) + x) == Some((s, x))
  }

  lemma Regrouped(a: Text, b: Text, c: Text)
    ensures a + b + c == a + (b + c)
  {
  }

  lemma PairText(s: Text)
    requires StartsPair(s)
    ensures QuoteRest(s) == [s[0], s[1]] + QuoteRest(s[2..]) && s == [s[0]] + ([s[1]] + s[2..])
  {
  }

  lemma UnitText(s: Text)
    requires s != [] && !StartsPair(s)
    ensures QuoteRest(s) == QuoteUnit(s[0]) + QuoteRest(s[1..]) && s == [s[0]] + s[1..]
  {
  }

  lemma PairExtends(s: Text, x: Text)
    requires StartsPair(s) && Reads(s[2..], x)
    ensures Reads(s, x)
  {
    PairText(s);
    Regrouped([s[0], s[1]], QuoteRest(s[2..]), x);
    PairReads(s[0], s[1], QuoteRest(s[2..]) + x);
  }

  lemma UnitExtends(s: Text, x: Text)
    requires s != [] && !StartsPair(s) && Reads(s[1..], x)
    ensures Reads(s, x)
  {
    UnitText(s);
    Regrouped(QuoteUnit(s[0]), QuoteRest(s[1..]), x);
    UnitReads(s[0], QuoteRest(s[1..]) + x);
  }

  lemma NothingReads(x: Text)
    ensures Reads([], x)
  {
    assert ([QUOTE] + x)[1..] == x;
  }

  lemma {:induction false} StringReads(s: Text, x: Text)
    ensures Reads(s, x)
    decreases |s|
  {
    if s == [] {
      NothingReads(x);
    } else if StartsPair(s) {
      StringReads(s[2..], x);
      PairExtends(s, x);
    } else {
      StringReads(s[1..], x);
      UnitExtends(s, x);
    }
  }

  // ---- Numbers -----------------------------------------------------------

  function ReadNumber(t: Text): (n: nat)
    ensures n <= |t|
  {
    if t != [] && IsNumberUnit(t[0]) then 1 + ReadNumber(t[1..]) else 0
  }

  lemma {:induction false} NumberReads(text: Text, x: Text)
    requires (forall i | 0 <= i < |text| :: IsNumberUnit(text[i])) && Follows(x)
    ensures ReadNumber(text + x) == |text|
    decreases |text|
  {
    if text == [] {
      assert text + x == x;
    } else {
      assert (text + x)[1..] == text[1..] + x;
      NumberReads(text[1..], x);
    }
  }

  // ---- Values ------------------------------------------------------------

  /** A value at the beginning of a text, and what follows it. */
  function ReadValue(t: Text): (r: Option<(Json, Text)>)
    ensures r.Some? ==> |r.value.1| < |t|
    decreases |t|, 0
  {
    if t == [] then None
    else if t[0] == 34 then
      match ReadString(t[1..]) case None => None case Some((chars, rest)) => Some((JStr(chars), rest))
    else if t[0] == 91 then
      match ReadItems(t[1..]) case None => None case Some((items, rest)) => Some((JArr(items), rest))
    else if t[0] == 123 then
      match ReadMembers(t[1..]) case None => None case Some((members, rest)) => Some((JObj(members), rest))
    else if [110, 117, 108, 108] <= t then Some((JNull, t[4..]))
    else if [116, 114, 117, 101] <= t then Some((JBool(true), t[4..]))
    else if [102, 97, 108, 115, 101] <= t then Some((JBool(false), t[5..]))
    else if IsDigit(t[0]) || t[0] == 45 then
      var n := ReadNumber(t);
      if n == 0 then None else Some((JNum(t[..n]), t[n..]))
    else None
  }

  /** The items behind an opening bracket or a comma. */
  function ReadItems(t: Text): (r: Option<(Items, Text)>)
    ensures r.Some? ==> |r.value.1| < |t|
    decreases |t|, 1
  {
    if t != [] && t[0] == 93 then Some((NoItems, t[1..])) else
      match ReadValue(t)
      case None => None
      case Some((head, rest)) =>
        if rest != [] && rest[0] == 93 then Some((Item(head, NoItems), rest[1..]))
        else if rest == [] || rest[0] != 44 then None
        else
          var more := ReadItems(rest[1..]);
          if more.None? || more.value.0.NoItems? then None else Some((Item(head, more.value.0), more.value.1))
  }

  /** The members behind an opening brace or a comma. */
  function ReadMembers(t: Text): (r: Option<(Members, Text)>)
    ensures r.Some? ==> |r.value.1| < |t|
    decreases |t|, 1
  {
    if t != [] && t[0] == 125 then Some((NoMembers, t[1..]))
    else if t == [] || t[0] != 34 then None
    else
      var key := ReadString(t[1..]);
      if key.None? || key.value.1 == [] || key.value.1[0] != 58 then None else
        match ReadValue(key.value.1[1..])
        case None => None
        case Some((value, rest)) =>
          if rest != [] && rest[0] == 125 then Some((Member(key.value.0, value, NoMembers), rest[1..]))
          else if rest == [] || rest[0] != 44 then None
          else
            var more := ReadMembers(rest[1..]);
            if more.None? || more.value.0.NoMembers? then None
            else Some((Member(key.value.0, value, more.value.0), more.value.1))
  }

  lemma MarkReads(mark: bv16, x: Text)
    ensures ([mark] + x)[0] == mark && ([mark] + x)[1..] == x
  {
  }

  lemma Opens(mark: bv16, text: Text, x: Text)
    ensures ([mark] + text + x)[0] == mark && ([mark] + text + x)[1..] == text + x
  {
  }

  lemma WordReads(v: Json, x: Text)
    requires v.JNull? || v.JBool?
    ensures ReadValue(TextOf(v) + x) == Some((v, x))
  {
    var t := TextOf(v) + x;
    assert TextOf(v) <= t && t[|TextOf(v)|..] == x;
  }

  lemma NumberValueReads(text: Text, x: Text)
    requires IsNumber(text) && Follows(x)
    ensures ReadValue(text + x) == Some((JNum(text), x))
  {
    var t := text + x;
    NumberReads(text, x);
    assert t[0] == text[0] && (IsDigit(t[0]) || t[0] == 45);
    assert t[..|text|] == text && t[|text|..] == x;
    OtherKinds(t);
  }

  lemma OtherKinds(t: Text)
    requires t != [] && (IsDigit(t[0]) || t[0] == 45)
    ensures t[0] != 34 && t[0] != 91 && t[0] != 123
    ensures !([110, 117, 108, 108] <= t) && !([116, 114, 117, 101] <= t) && !([102, 97, 108, 115, 101] <= t)
  {
  }

  /** What was written reads back, whatever may follow it. */
  lemma {:induction false} ReadsBack(v: Json, x: Text)
    requires Clean(v) && Follows(x)
    ensures ReadValue(TextOf(v) + x) == Some((v, x))
    decreases v, 0
  {
    match v
    case JNull => WordReads(v, x);
    case JBool(_) => WordReads(v, x);
    case JNum(text) => NumberValueReads(text, x);
    case JStr(chars) =>
      Opens(QUOTE, QuoteRest(chars), x);
      StringReads(chars, x);
    case JArr(items) =>
      Opens(OPEN_LIST, TextOfItems(items), x);
      ItemsRead(items, x);
    case JObj(members) =>
      Opens(OPEN_OBJECT, TextOfMembers(members), x);
      MembersRead(members, x);
  }

  lemma {:induction false} ItemsRead(items: Items, x: Text)
    requires CleanItems(items)
    ensures ReadItems(TextOfItems(items) + x) == Some((items, x))
    decreases items, 0
  {
    BracketOrValue(items, x);
    match items
    case NoItems => MarkReads(CLOSE_LIST, x);
    case Item(head, tail) =>
      ItemText(items, x);
      ReadsBack(head, Behind(tail, x));
      BehindSplit(tail, x);
      BracketOrValue(tail, x);
      ItemsRead(tail, x);
      MarkReads(COMMA, TextOfItems(tail) + x);
      MarkReads(CLOSE_LIST, x);
  }

  lemma {:induction false} MembersRead(members: Members, x: Text)
    requires CleanMembers(members)
    ensures ReadMembers(TextOfMembers(members) + x) == Some((members, x))
    decreases members, 0
  {
    BracketOrKey(members, x);
    match members
    case NoMembers => MarkReads(CLOSE_OBJECT, x);
    case Member(key, value, rest) =>
      var behind := TextOf(value) + BehindMember(rest, x);
      MemberText(members, x);
      MarkReads(QUOTE, QuoteRest(key) + ([COLON] + behind));
      StringReads(key, [COLON] + behind);
      MarkReads(COLON, behind);
      ReadsBack(value, BehindMember(rest, x));
      BehindMemberSplit(rest, x);
      BracketOrKey(rest, x);
      MembersRead(rest, x);
      MarkReads(COMMA, TextOfMembers(rest) + x);
      MarkReads(CLOSE_OBJECT, x);
  }
}
