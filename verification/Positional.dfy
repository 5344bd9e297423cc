/**
 Positional notation, most significant digit first, in the three radixes the encoders
 use. Shifting and splitting go through a match on the radix, so every product and
 quotient below has a literal factor.
 */
module Positional {

  datatype Radix = Hex | Base58 | Byte

  function Size(r: Radix): nat {
    match r case Hex => 16 case Base58 => 58 case Byte => 256
  }

  function Push(v: nat, d: nat, r: Radix): nat {
    match r case Hex => v * 16 + d case Base58 => v * 58 + d case Byte => v * 256 + d
  }

  function Quotient(n: nat, r: Radix): (q: nat)
    ensures n > 0 ==> q < n
  {
    match r case Hex => n / 16 case Base58 => n / 58 case Byte => n / 256
  }

  function Remainder(n: nat, r: Radix): (d: nat)
    ensures d < Size(r)
  {
    match r case Hex => n % 16 case Base58 => n % 58 case Byte => n % 256
  }

  lemma PushThenSplit(v: nat, d: nat, r: Radix)
    requires d < Size(r)
    ensures Quotient(Push(v, d, r), r) == v && Remainder(Push(v, d, r), r) == d
    ensures Push(v, d, r) == 0 <==> v == 0 && d == 0
  {
  }

  lemma SplitThenPush(n: nat, r: Radix)
    ensures Push(Quotient(n, r), Remainder(n, r), r) == n
  {
  }

  /** The number a digit string denotes. */
  function Value(ds: seq<nat>, r: Radix): nat {
    if ds == [] then 0 else Push(Value(ds[..|ds| - 1], r), ds[|ds| - 1], r)
  }

  /** The shortest digit string of a number; zero has no digits. */
  function Digits(n: nat, r: Radix): seq<nat> {
    if n == 0 then [] else Digits(Quotient(n, r), r) + [Remainder(n, r)]
  }

  ghost predicate Bounded(ds: seq<nat>, r: Radix) {
    forall i | 0 <= i < |ds| :: ds[i] < Size(r)
  }

  function Zeros(k: nat): seq<nat> {
    seq(k, _ => 0)
  }

  lemma ValuePush(ds: seq<nat>, d: nat, r: Radix)
    ensures Value(ds + [d], r) == Push(Value(ds, r), d, r)
  {
    assert (ds + [d])[..|ds|] == ds;
  }

  /** The digit string denotes the number and has no leading zero. */
  ghost predicate Spells(ds: seq<nat>, n: nat, r: Radix) {
    Value(ds, r) == n && Bounded(ds, r) && if n > 0 then ds != [] && ds[0] != 0 else ds == []
  }

  lemma SpellsPush(ds: seq<nat>, n: nat, d: nat, r: Radix)
    requires Spells(ds, n, r) && d < Size(r) && Push(n, d, r) > 0
    ensures Spells(ds + [d], Push(n, d, r), r)
  {
    ValuePush(ds, d, r);
  }

  lemma {:induction false} DigitsSpell(n: nat, r: Radix)
    ensures Spells(Digits(n, r), n, r)
    decreases n
  {
    if n > 0 {
      DigitsSpell(Quotient(n, r), r);
      SplitThenPush(n, r);
      SpellsPush(Digits(Quotient(n, r), r), Quotient(n, r), Remainder(n, r), r);
    }
  }

  lemma {:induction false} ValueOfDigits(n: nat, r: Radix)
    ensures Value(Digits(n, r), r) == n
    ensures Bounded(Digits(n, r), r)
    ensures n > 0 ==> Digits(n, r) != [] && Digits(n, r)[0] != 0
  {
    DigitsSpell(n, r);
  }

  lemma {:induction false} DigitsOfValue(ds: seq<nat>, r: Radix)
    requires Bounded(ds, r)
    requires ds != [] ==> ds[0] != 0
    ensures Digits(Value(ds, r), r) == ds
    ensures ds != [] ==> Value(ds, r) > 0
    decreases |ds|
  {
    if ds != [] {
      var init, last := ds[..|ds| - 1], ds[|ds| - 1];
      assert ds == init + [last];
      DigitsOfValue(init, r);
      PushThenSplit(Value(init, r), last, r);
    }
  }

  lemma {:induction false} LeadingZerosVanish(k: nat, ds: seq<nat>, r: Radix)
    ensures Value(Zeros(k) + ds, r) == Value(ds, r)
    decreases k + |ds|
  {
    var all := Zeros(k) + ds;
    if ds != [] {
      LeadingZerosVanish(k, ds[..|ds| - 1], r);
      assert all[..|all| - 1] == Zeros(k) + ds[..|ds| - 1];
    } else if k > 0 {
      LeadingZerosVanish(k - 1, [], r);
      assert all[..|all| - 1] == Zeros(k - 1) + [];
    }
  }

  /** A value determines its digits among strings of one length. */
  lemma {:induction false} FixedWidthInjective(a: seq<nat>, b: seq<nat>, r: Radix)
    requires |a| == |b| && Bounded(a, r) && Bounded(b, r)
    requires Value(a, r) == Value(b, r)
    ensures a == b
    decreases |a|
  {
    if a != [] {
      var n := |a| - 1;
      PushThenSplit(Value(a[..n], r), a[n], r);
      PushThenSplit(Value(b[..n], r), b[n], r);
      FixedWidthInjective(a[..n], b[..n], r);
      assert a == a[..n] + [a[n]] && b == b[..n] + [b[n]];
    }
  }

  // ---- Buffers -----------------------------------------------------------

  /** The contents of a byte buffer. */
  type Buffer = b: seq<nat> | Bounded(b, Byte)

  /** Buffer.from(hex, 'hex'): one byte a pair of digits. */
  function FromHex(h: seq<nat>, count: nat): Buffer
    requires |h| == count * 2 && Bounded(h, Hex)
  {
    seq(count, i requires 0 <= i < count => h[2 * i] * 16 + h[2 * i + 1])
  }

  lemma {:induction false} FromHexValue(h: seq<nat>, count: nat)
    requires |h| == count * 2 && Bounded(h, Hex)
    ensures Value(FromHex(h, count), Byte) == Value(h, Hex)
    decreases count
  {
    if count > 0 {
      var init, hi, lo := h[..|h| - 2], h[|h| - 2], h[|h| - 1];
      FromHexValue(init, count - 1);
      PairValue(FromHex(init, count - 1), init, hi, lo);
      assert FromHex(h, count) == FromHex(init, count - 1) + [hi * 16 + lo];
      assert h == init + [hi] + [lo];
    }
  }

  /** Appending one byte on one side and its two hexadecimal digits on the other. */
  lemma PairValue(b: seq<nat>, h: seq<nat>, hi: nat, lo: nat)
    requires Value(b, Byte) == Value(h, Hex)
    ensures Value(b + [hi * 16 + lo], Byte) == Value(h + [hi] + [lo], Hex)
  {
    ValuePush(b, hi * 16 + lo, Byte);
    ValuePush(h, hi, Hex);
    ValuePush(h + [hi], lo, Hex);
  }
}
