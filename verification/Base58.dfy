/**
 Base58 text for byte buffers (packages/agent-keys/src/base58.js). The loops are proved
 against Encode and Decode, and the round trips are proved of those with their exact
 conditions: a buffer of zero bytes comes back one byte longer.
 */
module Base58Text {
  import opened Common
  import opened Positional

  /** Fifty-eight distinct characters, '1' standing for zero. */
  ghost predicate IsAlphabet(a: string) {
    && |a| == 58 && a[0] == '1'
    && forall i, j | 0 <= i < j < 58 :: a[i] < a[j]
  }

  const ALPHABET: string :=
    "123456789" + "ABCDEFGH" + "JKLMN" + "PQRSTUVWXYZ" + "abcdefghijk" + "mnopqrstuvwxyz"

  lemma {:induction false} Ascending(i: nat, j: nat)
    requires i < j < 58
    ensures |ALPHABET| == 58 && ALPHABET[i] < ALPHABET[j]
    decreases j - i
  {
    assert |ALPHABET| == 58 && forall k | 0 <= k < 57 :: ALPHABET[k] < ALPHABET[k + 1];
    if i + 1 < j {
      Ascending(i + 1, j);
    }
  }

  lemma AlphabetIsOne()
    ensures IsAlphabet(ALPHABET)
  {
    forall i, j | 0 <= i < j < 58 ensures |ALPHABET| == 58 && ALPHABET[i] < ALPHABET[j] {
      Ascending(i, j);
    }
  }

  type Alphabet = a: string | IsAlphabet(a) ghost witness (AlphabetIsOne(); ALPHABET)

  // ---- The alphabet map --------------------------------------------------

  function IndexFrom(a: Alphabet, c: char, i: nat): (r: Option<nat>)
    requires i <= 58
    ensures r.Some? ==> i <= r.value < 58 && a[r.value] == c
    ensures r.None? ==> forall j | i <= j < 58 :: a[j] != c
    decreases 58 - i
  {
    if i == 58 then None else if a[i] == c then Some(i) else IndexFrom(a, c, i + 1)
  }

  /** The digit c stands for, if it is in the alphabet. */
  function DigitOf(a: Alphabet, c: char): (r: Option<nat>)
    ensures r.Some? <==> exists d :: 0 <= d < 58 && a[d] == c
    ensures r.Some? ==> r.value < 58 && a[r.value] == c
  {
    IndexFrom(a, c, 0)
  }

  lemma CharDigit(a: Alphabet, d: nat)
    requires d < 58
    ensures DigitOf(a, a[d]) == Some(d)
    ensures a[d] == '1' <==> d == 0
  {
  }

  function Chars(a: Alphabet, ds: seq<nat>): string
    requires Bounded(ds, Base58)
  {
    seq(|ds|, i requires 0 <= i < |ds| => a[ds[i]])
  }

  predicate Valid(a: Alphabet, s: string) {
    forall i | 0 <= i < |s| :: DigitOf(a, s[i]).Some?
  }

  function DigitsOf(a: Alphabet, s: string): (ds: seq<nat>)
    requires Valid(a, s)
    ensures Bounded(ds, Base58)
  {
    seq(|s|, i requires 0 <= i < |s| => DigitOf(a, s[i]).value)
  }

  lemma CharsRoundTrip(a: Alphabet, ds: seq<nat>)
    requires Bounded(ds, Base58)
    ensures Valid(a, Chars(a, ds)) && DigitsOf(a, Chars(a, ds)) == ds
  {
    forall i | 0 <= i < |ds| ensures DigitOf(a, Chars(a, ds)[i]) == Some(ds[i]) {
      CharDigit(a, ds[i]);
    }
  }

  lemma DigitsRoundTrip(a: Alphabet, s: string)
    requires Valid(a, s)
    ensures Chars(a, DigitsOf(a, s)) == s
  {
    forall i | 0 <= i < |s| ensures Chars(a, DigitsOf(a, s))[i] == s[i] {
    }
  }

  // ---- Leading runs ------------------------------------------------------

  /** How many copies of x a sequence starts with. */
  function Run<T(==)>(x: T, s: seq<T>): (k: nat)
    ensures k <= |s|
    ensures forall i | 0 <= i < k :: s[i] == x
    ensures k < |s| ==> s[k] != x
  {
    if s != [] && s[0] == x then 1 + Run(x, s[1..]) else 0
  }

  function Copies<T>(x: T, k: nat): seq<T> {
    seq(k, _ => x)
  }

  lemma {:induction false} RunOfCopies<T>(x: T, k: nat, rest: seq<T>)
    requires rest != [] ==> rest[0] != x
    ensures Run(x, Copies(x, k) + rest) == k
    decreases k
  {
    var all := Copies(x, k) + rest;
    if k > 0 {
      assert all[1..] == Copies(x, k - 1) + rest;
      RunOfCopies(x, k - 1, rest);
    }
  }

  lemma SplitRun<T>(x: T, s: seq<T>)
    ensures s == Copies(x, Run(x, s)) + s[Run(x, s)..]
  {
  }

  // ---- The hexadecimal detour -------------------------------------------

  /** buffer.toString('hex'): two hexadecimal digits a byte. */
  function HexOf(b: Buffer): (h: seq<nat>)
    ensures Bounded(h, Hex)
  {
    if b == [] then [] else HexOf(b[..|b| - 1]) + [b[|b| - 1] / 16, b[|b| - 1] % 16]
  }

  lemma {:induction false} HexValue(b: Buffer)
    ensures Value(HexOf(b), Hex) == Value(b, Byte)
    decreases |b|
  {
    if b != [] {
      var init, last := b[..|b| - 1], b[|b| - 1];
      HexValue(init);
      ValuePush(HexOf(init), last / 16, Hex);
      ValuePush(HexOf(init) + [last / 16], last % 16, Hex);
      assert HexOf(b) == HexOf(init) + [last / 16] + [last % 16];
    }
  }

  /** num.toString(16), left-padded to an even length. */
  function HexText(n: nat): (h: seq<nat>)
    ensures |h| == |h| / 2 * 2 && h != [] && Bounded(h, Hex)
  {
    ValueOfDigits(n, Hex);
    var h := if n == 0 then [0] else Digits(n, Hex);
    if |h| % 2 != 0 then [0] + h else h
  }

  /** The bytes decoding emits for a number: at least one, even for zero. */
  function NumberBytes(n: nat): Buffer {
    FromHex(HexText(n), |HexText(n)| / 2)
  }

  lemma HexTextShape(n: nat)
    ensures Value(HexText(n), Hex) == n
    ensures n == 0 ==> HexText(n) == [0, 0]
    ensures n > 0 ==> HexText(n)[0] * 16 + HexText(n)[1] != 0
  {
    ValueOfDigits(n, Hex);
    var ds := if n == 0 then [0] else Digits(n, Hex);
    if |ds| % 2 != 0 {
      assert HexText(n) == Zeros(1) + ds;
      LeadingZerosVanish(1, ds, Hex);
      assert HexText(n)[1] == ds[0];
    }
  }

  lemma NumberBytesAreDigits(n: nat)
    ensures NumberBytes(n) == if n == 0 then [0] else Digits(n, Byte)
  {
    HexTextShape(n);
    var h := HexText(n);
    FromHexValue(h, |h| / 2);
    if n > 0 {
      DigitsOfValue(FromHex(h, |h| / 2), Byte);
    }
  }

  // ---- Specification -----------------------------------------------------

  function Encode(a: Alphabet, b: Buffer): string {
    ValueOfDigits(Value(b, Byte), Base58);
    Copies('1', Run(0, b)) + Chars(a, Digits(Value(b, Byte), Base58))
  }

  /** The number behind the leading ones. */
  function NumberIn(a: Alphabet, s: string): nat
    requires Valid(a, s)
  {
    Value(DigitsOf(a, s[Run('1', s)..]), Base58)
  }

  /** Err carries the first character outside the alphabet. */
  function Decode(a: Alphabet, s: string): Result<Buffer, char> {
    if s == "" then Ok([])
    else if Valid(a, s) then
      Ok(Copies(0, Run('1', s)) + NumberBytes(NumberIn(a, s)))
    else Err(FirstInvalid(a, s))
  }

  function FirstInvalid(a: Alphabet, s: string): (c: char)
    requires !Valid(a, s)
    ensures c in s && DigitOf(a, c).None?
  {
    if DigitOf(a, s[0]).None? then s[0] else
      assert forall i | 1 <= i < |s| :: s[i] == s[1..][i - 1];
      FirstInvalid(a, s[1..])
  }

  // ---- Round trips -------------------------------------------------------

  lemma LeadingZerosCarryNothing(b: Buffer)
    ensures Value(b, Byte) == Value(b[Run(0, b)..], Byte)
    ensures Value(b, Byte) == 0 <==> Run(0, b) == |b|
  {
    var k := Run(0, b);
    var rest: seq<nat> := b[k..];
    assert b == Zeros(k) + rest;
    LeadingZerosVanish(k, rest, Byte);
    if k < |b| {
      DigitsOfValue(rest, Byte);
    }
  }

  /** A nonempty digit string with no leading zero, behind k ones, is read back whole. */
  lemma TextShape(a: Alphabet, k: nat, ds: seq<nat>)
    requires Bounded(ds, Base58) && ds != [] && ds[0] != 0
    ensures var s := Copies('1', k) + Chars(a, ds);
      Valid(a, s) && Run('1', s) == k && s[k..] == Chars(a, ds) && DigitsOf(a, s[k..]) == ds
  {
    CharsRoundTrip(a, ds);
    CharDigit(a, ds[0]);
    CharDigit(a, 0);
    RunOfCopies('1', k, Chars(a, ds));
    var s := Copies('1', k) + Chars(a, ds);
    assert s[k..] == Chars(a, ds);
    forall i | 0 <= i < |s| ensures DigitOf(a, s[i]).Some? {
      assert i >= k ==> s[i] == Chars(a, ds)[i - k];
    }
  }

  lemma NumberBytesOfBuffer(b: Buffer)
    requires Run(0, b) < |b|
    ensures NumberBytes(Value(b, Byte)) == b[Run(0, b)..]
  {
    LeadingZerosCarryNothing(b);
    NumberBytesAreDigits(Value(b, Byte));
    DigitsOfValue(b[Run(0, b)..], Byte);
  }

  lemma DecodeEncodeNonzero(a: Alphabet, b: Buffer)
    requires Run(0, b) < |b|
    ensures Decode(a, Encode(a, b)) == Ok(b)
  {
    var k, n := Run(0, b), Value(b, Byte);
    LeadingZerosCarryNothing(b);
    ValueOfDigits(n, Base58);
    var ds := Digits(n, Base58);
    TextShape(a, k, ds);
    NumberBytesOfBuffer(b);
    assert Encode(a, b) == Copies('1', k) + Chars(a, ds);
    SplitRun(0, b);
  }

  lemma DecodeEncodeZeros(a: Alphabet, n: nat)
    requires n > 0
    ensures Decode(a, Encode(a, Copies(0, n))) == Ok(Copies(0, n + 1))
  {
    var b: Buffer := Copies(0, n);
    RunOfCopies<nat>(0, n, []);
    assert b == Copies<nat>(0, n) + [];
    LeadingZerosCarryNothing(b);
    CharDigit(a, 0);
    var s := Encode(a, b);
    assert s == Copies('1', n) + "";
    RunOfCopies('1', n, "");
    assert Valid(a, s) && s[n..] == "";
    NumberBytesAreDigits(0);
    assert Decode(a, s) == Ok(Copies<nat>(0, n) + [0]);
    assert Copies<nat>(0, n) + [0] == Copies(0, n + 1);
  }

  /** Decoding inverts encoding exactly on the empty buffer and buffers with a nonzero byte. */
  lemma DecodeEncode(a: Alphabet, b: Buffer)
    ensures Decode(a, Encode(a, b)) == Ok(b) <==> b == [] || exists i :: 0 <= i < |b| && b[i] != 0
  {
    if Run(0, b) < |b| {
      DecodeEncodeNonzero(a, b);
    } else if b == [] {
      LeadingZerosCarryNothing(b);
    } else {
      SplitRun(0, b);
      assert b == Copies(0, |b|);
      DecodeEncodeZeros(a, |b|);
      assert |Copies<nat>(0, |b| + 1)| == |b| + 1;
    }
  }

  lemma DecodeShape(a: Alphabet, s: string, k: nat, number: seq<nat>)
    requires Valid(a, s) && s != "" && Run('1', s) == k && NumberBytes(NumberIn(a, s)) == number
    ensures Decode(a, s).Ok? && Decode(a, s).value == Copies<nat>(0, k) + number
  {
  }

  /** k ones and nothing else decode to one zero byte more. */
  lemma DecodeOnes(a: Alphabet, s: string)
    requires Valid(a, s) && s != "" && Run('1', s) == |s|
    ensures Decode(a, s).Ok? && Decode(a, s).value == Copies(0, |s| + 1)
  {
    NoNumber(a, s);
    ZeroByte();
    DecodeShape(a, s, |s|, [0]);
    OneMoreZero(|s|);
  }

  lemma ZeroByte()
    ensures NumberBytes(0) == [0]
  {
    NumberBytesAreDigits(0);
  }

  lemma OneMoreZero(k: nat)
    ensures Copies<nat>(0, k) + [0] == Copies<nat>(0, k + 1)
  {
  }

  lemma NoNumber(a: Alphabet, s: string)
    requires Valid(a, s) && Run('1', s) == |s|
    ensures NumberIn(a, s) == 0
  {
    assert s[|s|..] == "";
  }

  lemma EncodeZeros(a: Alphabet, k: nat)
    ensures |Encode(a, Copies<nat>(0, k))| == k
  {
    var b: Buffer := Copies(0, k);
    assert b == Copies<nat>(0, k) + [];
    RunOfCopies<nat>(0, k, []);
    LeadingZerosCarryNothing(b);
  }

  lemma EncodeNumberBytes(a: Alphabet, k: nat, n: nat)
    requires n > 0
    ensures Bounded(Digits(n, Base58), Base58)
    ensures Encode(a, Copies(0, k) + NumberBytes(n)) == Copies('1', k) + Chars(a, Digits(n, Base58))
  {
    var b: Buffer := Copies(0, k) + NumberBytes(n);
    NumberBytesAreDigits(n);
    ValueOfDigits(n, Byte);
    ValueOfDigits(n, Base58);
    RunOfCopies<nat>(0, k, NumberBytes(n));
    assert b[k..] == NumberBytes(n);
    LeadingZerosCarryNothing(b);
  }

  lemma NumberBehind(a: Alphabet, s: string, k: nat, ds: seq<nat>)
    requires Valid(a, s) && k == Run('1', s) < |s| && ds == DigitsOf(a, s[k..])
    ensures NumberIn(a, s) == Value(ds, Base58) > 0
    ensures Digits(NumberIn(a, s), Base58) == ds
  {
    CharDigit(a, ds[0]);
    DigitsOfValue(ds, Base58);
  }

  lemma EncodeDecodeNumber(a: Alphabet, s: string)
    requires Valid(a, s) && Run('1', s) < |s|
    ensures Encode(a, Decode(a, s).value) == s
  {
    var k := Run('1', s);
    var ds := DigitsOf(a, s[k..]);
    DecodeShape(a, s, k, NumberBytes(NumberIn(a, s)));
    NumberBehind(a, s, k, ds);
    EncodeNumberBytes(a, k, NumberIn(a, s));
    DigitsRoundTrip(a, s[k..]);
    SplitRun('1', s);
  }

  /** Encoding inverts decoding exactly on "" and valid strings with a character other than '1'. */
  lemma EncodeDecode(a: Alphabet, s: string)
    requires Valid(a, s)
    ensures Decode(a, s).Ok?
    ensures Encode(a, Decode(a, s).value) == s <==> s == "" || exists i :: 0 <= i < |s| && s[i] != '1'
  {
    if Run('1', s) < |s| {
      EncodeDecodeNumber(a, s);
    } else if s == "" {
      LeadingZerosCarryNothing([]);
    } else {
      DecodeOnes(a, s);
      EncodeZeros(a, |s| + 1);
    }
  }

  // ---- The loops ---------------------------------------------------------

  method CountRun<T(==)>(x: T, s: seq<T>) returns (k: nat)
    ensures k == Run(x, s)
  {
    k := 0;
    while k < |s| && s[k] == x
      invariant k <= |s|
      invariant forall i | 0 <= i < k :: s[i] == x
    {
      k := k + 1;
    }
  }

  lemma SplitOffDigit(num: nat, done: seq<nat>)
    requires num > 0
    ensures Digits(num, Base58) + done == Digits(num / 58, Base58) + ([num % 58] + done)
  {
    assert Digits(num, Base58) == Digits(Quotient(num, Base58), Base58) + [Remainder(num, Base58)];
  }

  lemma CharsPush(a: Alphabet, d: nat, ds: seq<nat>)
    requires d < 58 && Bounded(ds, Base58)
    ensures Bounded([d] + ds, Base58) && Chars(a, [d] + ds) == [a[d]] + Chars(a, ds)
  {
  }

  method Base58Encode(a: Alphabet, buffer: Buffer) returns (text: string)
    ensures text == Encode(a, buffer)
  {
    if |buffer| == 0 {
      LeadingZerosCarryNothing(buffer);
      return "";
    }
    var zeros := CountRun(0, buffer);
    HexValue(buffer);
    var num := Value(HexOf(buffer), Hex);
    var encoded := EncodeNumber(a, num);
    text := Copies('1', zeros) + encoded;
  }

  method EncodeNumber(a: Alphabet, n: nat) returns (encoded: string)
    ensures Bounded(Digits(n, Base58), Base58)
    ensures encoded == Chars(a, Digits(n, Base58))
  {
    ValueOfDigits(n, Base58);
    var num := n;
    encoded := "";
    ghost var done: seq<nat> := [];
    while num > 0
      invariant Bounded(done, Base58) && encoded == Chars(a, done)
      invariant Digits(num, Base58) + done == Digits(n, Base58)
    {
      SplitOffDigit(num, done);
      CharsPush(a, num % 58, done);
      var remainder := num % 58;
      num := num / 58;
      encoded := [a[remainder]] + encoded;
      done := [remainder] + done;
    }
  }

  method DecodeNumber(a: Alphabet, s: string) returns (r: Result<nat, char>)
    ensures r == if Valid(a, s) then Ok(Value(DigitsOf(a, s), Base58)) else Err(FirstInvalid(a, s))
  {
    var num := 0;
    for i := 0 to |s|
      invariant Valid(a, s[..i])
      invariant num == Value(DigitsOf(a, s[..i]), Base58)
    {
      var digit := DigitOf(a, s[i]);
      if digit.None? {
        FirstInvalidAt(a, s, i);
        return Err(s[i]);
      }
      DecodeStep(a, s, i);
      num := num * 58 + digit.value;
    }
    assert s[..|s|] == s;
    r := Ok(num);
  }

  lemma DecodeStep(a: Alphabet, s: string, i: nat)
    requires i < |s| && Valid(a, s[..i]) && DigitOf(a, s[i]).Some?
    ensures Valid(a, s[..i + 1])
    ensures Value(DigitsOf(a, s[..i + 1]), Base58)
         == Value(DigitsOf(a, s[..i]), Base58) * 58 + DigitOf(a, s[i]).value
  {
    var ds := DigitsOf(a, s[..i]);
    ValuePush(ds, DigitOf(a, s[i]).value, Base58);
    assert s[..i + 1] == s[..i] + [s[i]];
    assert DigitsOf(a, s[..i + 1]) == ds + [DigitOf(a, s[i]).value];
  }

  method Base58Decode(a: Alphabet, text: string) returns (r: Result<Buffer, char>)
    ensures r == Decode(a, text)
  {
    if |text| == 0 {
      return Ok([]);
    }
    var zeros := CountRun('1', text);
    var num := DecodeNumber(a, text[zeros..]);
    DecodeBehindOnes(a, text, zeros, num);
    if num.Err? {
      return Err(num.error);
    }
    r := Ok(Copies(0, zeros) + NumberBytes(num.value));
  }

  /** What follows the leading ones decides. */
  lemma SkipOnes(a: Alphabet, s: string, k: nat)
    requires k == Run('1', s)
    ensures Valid(a, s) <==> Valid(a, s[k..])
    ensures Valid(a, s) ==> NumberIn(a, s) == Value(DigitsOf(a, s[k..]), Base58)
    ensures !Valid(a, s) ==> FirstInvalid(a, s) == FirstInvalid(a, s[k..])
  {
    CharDigit(a, 0);
    SkipValid(a, s, k);
  }

  lemma DecodeBehindOnes(a: Alphabet, s: string, k: nat, behind: Result<nat, char>)
    requires s != "" && k == Run('1', s)
    requires var rest := s[k..];
      behind == if Valid(a, rest) then Ok(Value(DigitsOf(a, rest), Base58)) else Err(FirstInvalid(a, rest))
    ensures behind.Ok? ==> Decode(a, s) == Ok(Copies(0, k) + NumberBytes(behind.value))
    ensures behind.Err? ==> Decode(a, s) == Err(behind.error)
  {
    SkipOnes(a, s, k);
  }

  lemma {:induction false} SkipValid(a: Alphabet, s: string, k: nat)
    requires k <= |s| && forall i | 0 <= i < k :: DigitOf(a, s[i]).Some?
    ensures Valid(a, s) <==> Valid(a, s[k..])
    ensures !Valid(a, s) ==> FirstInvalid(a, s) == FirstInvalid(a, s[k..])
    decreases k
  {
    if k > 0 {
      assert s[k..] == s[1..][k - 1..];
      assert s == [s[0]] + s[1..];
      SkipValid(a, s[1..], k - 1);
    } else {
      assert s[0..] == s;
    }
  }

  /** The character reported is the first outside the alphabet. */
  lemma FirstInvalidIsFirst(a: Alphabet, s: string) returns (i: nat)
    requires !Valid(a, s)
    ensures i < |s| && s[i] == FirstInvalid(a, s) && s[i] !in a && forall j | 0 <= j < i :: s[j] in a
  {
    i := 0;
    while DigitOf(a, s[i]).Some?
      invariant i < |s| && forall j | 0 <= j < i :: DigitOf(a, s[j]).Some?
      decreases |s| - i
    {
      i := i + 1;
      if i == |s| {
        assert Valid(a, s);
      }
    }
    assert Valid(a, s[..i]);
    FirstInvalidAt(a, s, i);
  }

  lemma FirstInvalidAt(a: Alphabet, s: string, i: nat)
    requires i < |s| && Valid(a, s[..i]) && DigitOf(a, s[i]).None?
    ensures !Valid(a, s) && FirstInvalid(a, s) == s[i]
  {
    assert forall j | 0 <= j < i :: s[j] == s[..i][j];
    SkipValid(a, s, i);
    assert s[i..][0] == s[i];
  }
}
