/** Hexadecimal text, as in platform/string_hex.cc. */
module Hex {
  import opened Bits
  import opened Wrappers

  datatype Error = TooLong | NotHexadecimal

  predicate IsHexDigit(c: char) {
    '0' <= c <= '9' || 'A' <= c <= 'F' || 'a' <= c <= 'f'
  }

  function DigitValue(c: char): (d: nat)
    requires IsHexDigit(c)
    ensures d < 16
  {
    if c <= '9' then c as int - '0' as int
    else if c <= 'F' then c as int - 'A' as int + 10
    else c as int - 'a' as int + 10
  }

  /** `from_hex_digit`. */
  function FromHexDigit(c: char): (r: Result<nat, Error>)
    ensures r == if IsHexDigit(c) then Ok(DigitValue(c)) else Err(NotHexadecimal)
  {
    if '0' <= c && c <= '9' then Ok(c as int - '0' as int)
    else if 'A' <= c && c <= 'F' then Ok(c as int + 10 - 'A' as int)
    else if 'a' <= c && c <= 'f' then Ok(c as int + 10 - 'a' as int)
    else Err(NotHexadecimal)
  }

  predicate AllHex(s: string) {
    forall i :: 0 <= i < |s| ==> IsHexDigit(s[i])
  }

  /** The number a text spells in base 16. */
  function Value(s: string): nat
    requires AllHex(s)
  {
    if s == [] then 0 else 16 * Value(s[..|s| - 1]) + DigitValue(s[|s| - 1])
  }

  function Parsed(s: string): Result<nat, Error> {
    if |s| > 16 then Err(TooLong)
    else if !AllHex(s) then Err(NotHexadecimal)
    else Ok(Value(s))
  }

  lemma {:induction false} ValueBound(s: string)
    requires AllHex(s)
    ensures Value(s) < Pow2(4 * |s|)
  {
    if s != [] {
      ValueBound(s[..|s| - 1]);
      Pow2Small();
      Pow2Add(4, 4 * |s| - 4);
    }
  }

  /** One turn of the loop: the shift cannot overflow 64 bits before the sixteenth digit. */
  lemma ShiftInDigit(s: string, i: nat)
    requires AllHex(s) && i < |s| <= 16
    ensures BitOr(Shl(Value(s[..i]), 4) % Pow2(64), DigitValue(s[i])) == Value(s[..i + 1])
  {
    hide Pow2, BitOr, DigitValue;
    var v, d := Value(s[..i]), DigitValue(s[i]);
    assert s[..i + 1][..i] == s[..i];
    Pow2Small();
    ValueBound(s[..i]);
    Pow2Add(4, 4 * i);
    Pow2Monotone(4 * i + 4, 64);
    assert Shl(v, 4) < Pow2(64);
    ModUnique(Shl(v, 4), Pow2(64), 0, Shl(v, 4));
    OrLowHigh(d, v, 4);
  }

  /** `from_hex`: the base-16 value, never truncated, of up to 16 digits of either case. */
  method FromHex(buffer: string) returns (r: Result<nat, Error>)
    ensures r == Parsed(buffer)
    ensures r.Ok? ==> r.value < Pow2(64)
  {
    hide Pow2, BitOr, DigitValue, IsHexDigit, Shl;
    var ret := 0;
    if |buffer| > 16 {
      return Err(TooLong);
    }
    for i := 0 to |buffer|
      invariant AllHex(buffer[..i])
      invariant ret == Value(buffer[..i])
    {
      var digit := FromHexDigit(buffer[i]);
      if digit.Err? {
        return Err(digit.error);
      }
      assert AllHex(buffer[..i + 1]) && buffer[..i + 1][..i] == buffer[..i];
      ShiftInDigit(buffer[..i + 1], i);
      assert buffer[..i + 1][..i + 1] == buffer[..i + 1];
      ret := BitOr(Shl(ret, 4) % Pow2(64), digit.value);
    }
    assert buffer[..|buffer|] == buffer;
    ValueBound(buffer);
    Pow2Monotone(4 * |buffer|, 64);
    r := Ok(ret);
  }

  /** The sixteen digits in either case: these characters have these values, and no other character is a digit. */
  lemma DigitsAre(d: nat, c: char)
    requires d < 16
    ensures HexDigit(d) == "0123456789abcdef"[d]
    ensures FromHexDigit("0123456789abcdef"[d]) == Ok(d)
    ensures FromHexDigit("0123456789ABCDEF"[d]) == Ok(d)
    ensures FromHexDigit(c).Err? <==> c !in "0123456789abcdefABCDEF"
  {
  }

  // ----- printing

  function HexDigit(d: nat): (c: char)
    requires d < 16
    ensures IsHexDigit(c) && DigitValue(c) == d && !('A' <= c <= 'F')
  {
    if d < 10 then '0' + d as char else 'a' + (d - 10) as char
  }

  /** `%x`. */
  function Print(v: nat): (s: string)
    ensures s != [] && AllHex(s)
  {
    if v < 16 then [HexDigit(v)] else Print(v / 16) + [HexDigit(v % 16)]
  }

  function Zeros(n: nat): string {
    seq(n, _ => '0')
  }

  /** `%0*x`: at least `width` digits. */
  function PrintPadded(v: nat, width: nat): (s: string)
    ensures AllHex(s)
  {
    if |Print(v)| >= width then Print(v) else Zeros(width - |Print(v)|) + Print(v)
  }

  lemma {:induction false} PrintLength(v: nat, n: nat)
    requires n >= 1
    ensures |Print(v)| <= n <==> v < Pow2(4 * n)
    decreases n
  {
    hide HexDigit;
    Pow2Small();
    Pow2Add(4, 4 * n - 4);
    if n == 1 {
    } else if v < 16 {
      Pow2Monotone(4, 4 * n);
    } else {
      PrintLength(v / 16, n - 1);
    }
  }

  lemma {:induction false} PrintValue(zeros: nat, v: nat)
    ensures AllHex(Zeros(zeros) + Print(v)) && Value(Zeros(zeros) + Print(v)) == v
  {
    hide HexDigit, DigitValue;
    var z, p := Zeros(zeros), Print(v);
    assert HexDigit(0) == '0' by { DigitZero(); }
    assert AllHex(z + p);
    if v < 16 {
      assert (z + p)[..|z + p| - 1] == z;
      ValueOfZeros(zeros);
    } else {
      PrintValue(zeros, v / 16);
      assert (z + p)[..|z + p| - 1] == z + Print(v / 16);
    }
  }

  lemma DigitZero()
    ensures HexDigit(0) == '0' && DigitValue('0') == 0
  {
  }

  lemma {:induction false} ValueOfZeros(n: nat)
    ensures AllHex(Zeros(n)) && Value(Zeros(n)) == 0
  {
    DigitZero();
    if n > 0 {
      ValueOfZeros(n - 1);
      assert Zeros(n)[..n - 1] == Zeros(n - 1);
    }
  }

  /** The overloads of `to_hex` for integers of 1, 2, 4 and 8 bytes. */
  function ToHex(size: nat, val: nat): string
    requires size in {1, 2, 4, 8} && val < Pow2(8 * size)
  {
    "0x" + PrintPadded(val, 2 * size)
  }

  /** `to_hex` always writes two digits per byte, and `from_hex` reads them back without the prefix. */
  lemma HexRoundTrip(size: nat, val: nat)
    requires size in {1, 2, 4, 8} && val < Pow2(8 * size)
    ensures |ToHex(size, val)| == 2 + 2 * size && ToHex(size, val)[..2] == "0x"
    ensures Parsed(ToHex(size, val)[2..]) == Ok(val)
  {
    hide Print, Value, Pow2;
    PrintLength(val, 2 * size);
    var p := Print(val);
    PrintValue(2 * size - |p|, val);
    assert Zeros(0) + p == p;
    assert ToHex(size, val)[2..] == PrintPadded(val, 2 * size);
    assert ToHex(size, val)[..2] == "0x";
  }

  /** With its prefix the text is refused: the two functions are inverses only up to "0x". */
  lemma PrefixIsRefused(size: nat, val: nat)
    requires size in {1, 2, 4, 8} && val < Pow2(8 * size)
    ensures Parsed(ToHex(size, val)) == if size == 8 then Err(TooLong) else Err(NotHexadecimal)
  {
    hide PrintPadded, Pow2;
    HexRoundTrip(size, val);
    assert ToHex(size, val)[1] == 'x';
  }
}
