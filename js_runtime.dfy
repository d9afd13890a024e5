/**
 * The few pieces of the JavaScript runtime that the ping codec leans on:
 * reading a Uint8Array element, `Number(...)`, the `<<` operator with its
 * 32-bit wrap-around, turning a number into a string, `Array.prototype.join`
 * and `Uint8Array.from` applied to a string.  Section numbers refer to
 * ECMA-262 (the ECMAScript language specification).
 */
module JsRuntime {
  import opened Wrappers

  /** One element of a Uint8Array. */
  type Byte = x: int | 0 <= x < 256

  /** The JavaScript numbers that occur in the codec: integers and NaN. */
  datatype JsNumber = Finite(value: int) | NaN

  const TWO_31: int := 0x8000_0000
  const TWO_32: int := 0x1_0000_0000

  /** `bytes[i]` on a Uint8Array: `undefined` (None) outside 0 .. length - 1. */
  function ElementAt(bytes: seq<Byte>, i: int): Option<Byte>
  {
    if 0 <= i < |bytes| then Some(bytes[i]) else None
  }

  /** `Number(x)` of an element read from a Uint8Array: `undefined` becomes NaN. */
  function ToNumber(e: Option<Byte>): JsNumber
  {
    match e
    case Some(b) => Finite(b)
    case None => NaN
  }

  /**
   * ToInt32 (ECMA-262 section 7.1.6): NaN becomes 0, an integer becomes the one value
   * in [-2^31, 2^31) that is congruent to it modulo 2^32.
   */
  function ToInt32(x: JsNumber): (r: int)
    ensures -TWO_31 <= r < TWO_31
    ensures x.NaN? ==> r == 0
  {
    match x
    case NaN => 0
    case Finite(n) =>
      var m := n % TWO_32;
      if m >= TWO_31 then m - TWO_32 else m
  }

  function Pow2(n: nat): (r: nat)
    ensures r >= 1
  {
    if n == 0 then 1 else 2 * Pow2(n - 1)
  }

  /** `v` doubled `n` times, that is, `v` shifted left by `n` bit positions without overflow. */
  function Doubled(v: int, n: nat): int
  {
    if n == 0 then v else 2 * Doubled(v, n - 1)
  }

  lemma {:induction false} DoubledIsProduct(v: int, n: nat)
    ensures Doubled(v, n) == v * Pow2(n)
  {
    if n > 0 {
      DoubledIsProduct(v, n - 1);
      assert v * Pow2(n) == 2 * (v * Pow2(n - 1));
    }
  }

  /**
   * `x << s` (ECMA-262 section 13.9.1): the left operand goes through ToInt32, the
   * count is taken modulo 32, and the shifted value is wrapped back into int32.
   */
  function ShiftLeft(x: JsNumber, s: int): (r: int)
    ensures -TWO_31 <= r < TWO_31
  {
    ToInt32(Finite(Doubled(ToInt32(x), s % 32)))
  }

  /** Shifting by a + b positions is shifting by a, then by b. */
  lemma {:induction false} Pow2Add(a: nat, b: nat)
    ensures Pow2(a + b) == Pow2(a) * Pow2(b)
  {
    if a > 0 {
      calc {
        Pow2(a + b);
        2 * Pow2((a - 1) + b);
        { Pow2Add(a - 1, b); }
        2 * (Pow2(a - 1) * Pow2(b));
        (2 * Pow2(a - 1)) * Pow2(b);
      }
    }
  }

  /** The weights of the four octets of a big-endian word. */
  lemma Pow2Octets()
    ensures Pow2(0) == 1 && Pow2(8) == 256 && Pow2(16) == 65536 && Pow2(24) == 16777216
  {
    assert Pow2(4) == 16;
    assert Pow2(8) == 256 by { Pow2Add(4, 4); }
    assert Pow2(16) == 65536 by { Pow2Add(8, 8); }
    assert Pow2(24) == 16777216 by { Pow2Add(16, 8); }
  }

  /** `v` is already a 32-bit integer pattern: ToInt32 reads it as two's complement. */
  lemma ToInt32OfWord(v: int)
    requires 0 <= v < TWO_32
    ensures ToInt32(Finite(v)) == if v >= TWO_31 then v - TWO_32 else v
  {
  }

  /**
   * The value of `e << s` for an element `e` of a Uint8Array (0 when it is
   * missing) and the shifts of a big-endian reader: only a shift by 24 of an
   * octet with its top bit set wraps around, to a negative number.
   */
  lemma ShiftLeftOctet(e: Option<Byte>, s: int)
    requires s == 0 || s == 8 || s == 16 || s == 24
    ensures var o := if e.Some? then e.value else 0;
      ShiftLeft(ToNumber(e), s) == OctetWeight(o, s) - (if s == 24 && o >= 128 then TWO_32 else 0)
  {
    var o: Byte := if e.Some? then e.value else 0;
    assert ShiftLeft(ToNumber(e), s) == ToInt32(Finite(Doubled(o, s))) by {
      assert ToInt32(ToNumber(e)) == o;
      assert s % 32 == s;
    }
    assert Doubled(o, s) == OctetWeight(o, s) by {
      DoubledIsProduct(o, s);
      Pow2Octets();
    }
    assert ToInt32(Finite(OctetWeight(o, s))) ==
      OctetWeight(o, s) - (if s == 24 && o >= 128 then TWO_32 else 0) by {
      ToInt32OfWord(OctetWeight(o, s));
    }
  }

  /** An octet moved up by 0, 8, 16 or 24 bit positions. */
  function OctetWeight(o: Byte, s: int): nat
  {
    if s == 24 then o * 16777216 else if s == 16 then o * 65536 else if s == 8 then o * 256 else o
  }

  function DigitChar(d: int): char
    requires 0 <= d < 10
  {
    "0123456789"[d]
  }

  predicate IsDigit(c: char)
  {
    '0' <= c <= '9'
  }

  /** Decimal numeral of a natural number, most significant digit first. */
  function Decimal(n: nat): (s: string)
    ensures |s| >= 1
    ensures forall i :: 0 <= i < |s| ==> IsDigit(s[i])
  {
    if n < 10 then [DigitChar(n)] else Decimal(n / 10) + [DigitChar(n % 10)]
  }

  /** Number::toString (ECMA-262 section 6.1.6.1.20) for the numbers of JsNumber. */
  function NumberToString(x: JsNumber): string
  {
    match x
    case NaN => "NaN"
    case Finite(n) => if n < 0 then "-" + Decimal(-n) else Decimal(n)
  }

  /**
   * `Array.prototype.join` (ECMA-262 section 23.1.3.18) on an array of numbers: the
   * elements' strings with `sep` between each neighbouring pair.
   */
  function ArrayJoin(xs: seq<JsNumber>, sep: string): string
  {
    if |xs| == 0 then ""
    else if |xs| == 1 then NumberToString(xs[0])
    else ArrayJoin(xs[..|xs| - 1], sep) + sep + NumberToString(xs[|xs| - 1])
  }

  /**
   * The byte stored for one character of a string by `Uint8Array.from`
   * (ECMA-262 sections 23.2.2.1 and 7.1.11): the character becomes a one-character
   * string, ToNumber reads a digit as its value, a lone white-space
   * character as 0 and anything else as NaN, and ToUint8 stores NaN as 0.
   */
  function CharToUint8(c: char): Byte
  {
    if IsDigit(c) then (c as int) - ('0' as int) else 0
  }

  /** `Uint8Array.from(s)` for a string `s`: one byte per character. */
  function Uint8ArrayFrom(s: string): seq<Byte>
  {
    seq(|s|, i requires 0 <= i < |s| => CharToUint8(s[i]))
  }

  // Reading a decimal numeral back: used to state that the display form of a
  // number loses nothing.

  function DecimalValue(s: string): nat
  {
    if s == [] then 0
    else DecimalValue(s[..|s| - 1]) * 10 + CharToUint8(s[|s| - 1])
  }

  lemma {:induction false} DecimalRoundTrip(n: nat)
    ensures DecimalValue(Decimal(n)) == n
  {
    var s := Decimal(n);
    if n < 10 {
      assert s[..|s| - 1] == [];
    } else {
      assert s[..|s| - 1] == Decimal(n / 10);
      DecimalRoundTrip(n / 10);
    }
  }
}
