/** The unsigned LEB128 codec of protocol/unsigned_leb128.h (section 7.6 of DWARF Version 4), for the
    widths the template is instantiated with. Values of the template type T are naturals below
    2^bits; every place where C++ truncates to T or to 64 bits says so. */
module Leb128 {
  import opened Bits
  import opened Wrappers

  datatype Width = U8 | U16 | U32 | U64 {
    /** `sizeof(T)`. */
    function Size(): nat {
      match this case U8 => 1 case U16 => 2 case U32 => 4 case U64 => 8
    }

    function Modulus(): (m: nat)
      ensures m > 0
    {
      Pow2(8 * Size())
    }

    /** `maxSize`, the length of the encoder's buffer. */
    function MaxSize(): nat {
      Size() + (Size() + 1) / 8 + 1
    }
  }

  /** The sizes as numbers. */
  lemma WidthsAre()
    ensures U8.Modulus() == 256 && U16.Modulus() == 0x1_0000
    ensures U32.Modulus() == 0x1_0000_0000 && U64.Modulus() == 0x1_0000_0000_0000_0000
    ensures U8.MaxSize() == 2 && U16.MaxSize() == 3 && U32.MaxSize() == 5 && U64.MaxSize() == 10
  {
    hide Pow2;
    Pow2Small();
    Pow2Add(8, 8);
    Pow2Add(16, 16);
    Pow2Add(32, 32);
  }

  /** A view into a buffer; `Null` is the view whose data pointer is null. */
  datatype View = Null | Bytes(data: seq<byte>)

  // ----- specification

  function Encode(v: nat): (s: seq<byte>)
    ensures s != []
  {
    if v < 128 then [v] else [128 + v % 128] + Encode(v / 128)
  }

  /** The number spelt by the low seven bits of each byte, least significant first. */
  function Value(s: seq<byte>): nat {
    if s == [] then 0 else s[0] % 128 + 128 * Value(s[1..])
  }

  /** Where the first byte without the continuation bit is; the length when there is none. */
  function StopIndex(buf: seq<byte>): (k: nat)
    ensures k <= |buf|
    ensures forall i :: 0 <= i < k ==> buf[i] >= 128
    ensures k < |buf| ==> buf[k] < 128
  {
    if buf == [] || buf[0] < 128 then 0 else 1 + StopIndex(buf[1..])
  }

  /** Inputs on which the C++ is defined: not empty, and the loop does not shift by 64 or more,
      which an eleventh byte would make it do. */
  predicate Defined(buf: seq<byte>) {
    buf != [] && (StopIndex(buf) < 10 || |buf| <= 10)
  }

  /** The outcome of the form that does not throw. */
  function Decoded(w: Width, buf: seq<byte>): (nat, View) {
    var k := StopIndex(buf);
    if k == |buf| then (0, Null)
    else (Value(buf[..k + 1]) % w.Modulus(), Bytes(buf[k + 1..]))
  }

  // ----- laws of the specification

  lemma {:induction false} ValueAppend(s: seq<byte>, b: byte)
    ensures Value(s + [b]) == Value(s) + Shl(b % 128, 7 * |s|)
  {
    if s == [] {
      assert s + [b] == [b];
      assert Value([b]) == b % 128 by { assert [b][1..] == []; }
    } else {
      assert (s + [b])[1..] == s[1..] + [b];
      ValueAppend(s[1..], b);
      ShlBySeven(b % 128, 7 * |s| - 7);
    }
  }

  lemma ShlBySeven(x: nat, s: nat)
    ensures Shl(x, s + 7) == 128 * Shl(x, s)
  {
    Pow2Small();
    Pow2Add(7, s);
    assert x * (128 * Pow2(s)) == 128 * (x * Pow2(s));
  }

  lemma {:induction false} ValueBound(s: seq<byte>)
    ensures Value(s) < Pow2(7 * |s|)
  {
    if s != [] {
      ValueBound(s[1..]);
      Pow2Small();
      Pow2Add(7, 7 * |s| - 7);
    }
  }

  lemma ModAddMultiple(a: nat, m: nat, k: nat)
    requires m > 0
    ensures (a + m * k) % m == a % m
  {
    assert a + m * k == m * (a / m + k) + a % m by {
      assert m * (a / m + k) == m * (a / m) + m * k;
    }
    ModUnique(a + m * k, m, a / m + k, a % m);
  }

  /** A left shift in 64 bits drops the high bits of its operand. */
  lemma ShlTruncated(x: nat, s: nat)
    requires s <= 64
    ensures Shl(x, s) % Pow2(64) == Shl(x % Pow2(64 - s), s)
    ensures Shl(x, s) == Shl(x % Pow2(64 - s), s) + Pow2(64) * (x / Pow2(64 - s))
  {
    hide Pow2;
    var h, p := Pow2(64 - s), Pow2(s);
    assert Pow2(64) == h * p by { Pow2Add(64 - s, s); }
    var q, y := x / h, x % h;
    assert x == h * q + y;
    assert x * p == (h * p) * q + y * p by { Distribute(h, q, y, p); }
    assert y * p < h * p by { MulLess(y, h, p); }
    ModUnique(x * p, h * p, q, y * p);
  }

  lemma Distribute(h: nat, q: nat, y: nat, p: nat)
    ensures (h * q + y) * p == (h * p) * q + y * p
  {
  }

  lemma MulLess(y: nat, h: nat, p: nat)
    requires y < h && p > 0
    ensures y * p < h * p
  {
  }

  /** One turn of the decoder's loop: joining the next seven bits with `|`, cut off at 64 bits by the shift
      and at the width of T by the assignment, adds them to the value modulo 2^bits. */
  lemma ShiftOrStep(w: Width, v: nat, x: nat, s: nat)
    requires v < Pow2(s) && s <= 64
    ensures BitOr(v % w.Modulus(), Shl(x, s) % Pow2(64)) % w.Modulus() == (v + Shl(x, s)) % w.Modulus()
  {
    hide Pow2, BitOr, Shl;
    var m, y, q := w.Modulus(), x % Pow2(64 - s), x / Pow2(64 - s);
    ShlTruncated(x, s);
    ModAtMost(v, m);
    OrLowHigh(v % m, y, s);
    QuotientNatural(x, Pow2(64 - s));
    var k := Pow2(64 - 8 * w.Size());
    assert Pow2(64) == m * k by { Pow2Add(8 * w.Size(), 64 - 8 * w.Size()); }
    SameRemainder(v, Shl(y, s), m, k, q);
  }

  lemma SameRemainder(v: nat, y: nat, m: nat, k: nat, q: nat)
    requires m > 0
    ensures (v % m + y) % m == (v + (y + (m * k) * q)) % m
  {
    QuotientNatural(v, m);
    var low, more := v % m + y, v / m + k * q;
    assert m * more == m * (v / m) + (m * k) * q by { Distribute2(m, v / m, k, q); }
    assert v == m * (v / m) + v % m;
    ModAddMultiple(low, m, more);
  }

  lemma Distribute2(m: nat, a: nat, k: nat, q: nat)
    ensures m * (a + k * q) == m * a + (m * k) * q
  {
  }

  lemma ModAtMost(v: nat, m: nat)
    requires m > 0
    ensures v % m <= v
  {
    QuotientNatural(v, m);
    assert v == m * (v / m) + v % m;
    assert m * (v / m) >= 0;
  }

  // ----- decoding: the C++ code

  lemma SevenBits(b: byte)
    ensures BitAnd(b, 0x7f) == b % 128
    ensures BitAnd(b, 0x80) == if b < 128 then 0 else 0x80
  {
    hide BitAnd, Pow2;
    Pow2Small();
    AndMask(b, 7);
    AndBit(b, 7);
  }

  /** `decode_unsigned_leb128(buf, Leb128NoThrow)`. */
  method DecodeNoThrow(w: Width, buf: seq<byte>) returns (rv: nat, rest: View)
    requires Defined(buf)
    ensures (rv, rest) == Decoded(w, buf)
  {
    hide BitAnd, BitOr, Pow2, Shl, Value;
    SevenBits(buf[0]);
    rv := BitAnd(buf[0], 0x7f) % w.Modulus();
    var end := 0;
    FirstByte(w, buf);
    if BitAnd(buf[0], 0x80) == 0x80 {
      var shift := 7;
      end := 1;
      while end < |buf|
        invariant 1 <= end <= |buf|
        invariant shift == 7 * end
        invariant end <= StopIndex(buf)
        invariant rv == Value(buf[..end]) % w.Modulus()
      {
        SevenBits(buf[end]);
        Turn(w, buf, end);
        ShiftInRange(w, end);
        rv := BitOr(rv, Shl(BitAnd(buf[end], 0x7f), shift) % Pow2(64)) % w.Modulus();
        if BitAnd(buf[end], 0x80) == 0 {
          break;
        }
        shift := (shift + 7) % w.Modulus();
        end := end + 1;
      }
      if end == |buf| {
        return 0, Null;
      }
    }
    return rv, Bytes(buf[end + 1..]);
  }

  lemma FirstByte(w: Width, buf: seq<byte>)
    requires buf != []
    ensures buf[0] % 128 % w.Modulus() == Value(buf[..1]) % w.Modulus()
    ensures StopIndex(buf) == 0 <==> buf[0] < 128
  {
    hide Pow2;
    assert buf[..1][1..] == [];
  }

  lemma Turn(w: Width, buf: seq<byte>, end: nat)
    requires 1 <= end <= 9 && end < |buf|
    ensures BitOr(Value(buf[..end]) % w.Modulus(), Shl(buf[end] % 128, 7 * end) % Pow2(64)) % w.Modulus()
         == Value(buf[..end + 1]) % w.Modulus()
  {
    hide BitOr, Shl, Pow2, Value;
    ValueBound(buf[..end]);
    ShiftOrStep(w, Value(buf[..end]), buf[end] % 128, 7 * end);
    ValueAppend(buf[..end], buf[end]);
    assert buf[..end + 1] == buf[..end] + [buf[end]];
  }

  lemma ShiftInRange(w: Width, end: nat)
    requires end <= 9
    ensures (7 * end + 7) % w.Modulus() == 7 * end + 7
  {
    hide Pow2;
    ModulusAtLeast(w);
    ModUnique(7 * end + 7, w.Modulus(), 0, 7 * end + 7);
  }

  lemma ModulusAtLeast(w: Width)
    ensures w.Modulus() >= 256
  {
    Pow2Small();
    Pow2Monotone(8, 8 * w.Size());
  }

  datatype Error = InvalidBufSize(size: nat)

  /** `decode_unsigned_leb128(buf)`, the form that throws. */
  function Decode(w: Width, buf: seq<byte>): (r: Result<(nat, seq<byte>), Error>)
    requires buf != [] ==> Defined(buf)
    ensures r.Ok? <==> exists i :: 0 <= i < |buf| && buf[i] < 128
    ensures r.Ok? ==>
              && r.value.0 == Value(buf[..StopIndex(buf) + 1]) % w.Modulus()
              && r.value.1 == buf[StopIndex(buf) + 1..]
    ensures r.Err? ==> r.error == InvalidBufSize(|buf|)
  {
    if buf == [] then Err(InvalidBufSize(0))
    else
      var rv := Decoded(w, buf);
      if rv.1.Bytes? then Ok((rv.0, rv.1.data)) else Err(InvalidBufSize(|buf|))
  }

  /** `skip_unsigned_leb128`. */
  function Skip(w: Width, buf: seq<byte>): (r: Result<seq<byte>, Error>)
    requires buf != [] ==> Defined(buf)
    ensures r.Ok? <==> StopIndex(buf) < |buf|
    ensures r.Ok? ==> r.value == buf[StopIndex(buf) + 1..]
    ensures r.Err? ==> r.error == InvalidBufSize(|buf|)
  {
    var r := Decode(w, buf);
    if r.Err? then Err(r.error)
    else
      assert buf[StopIndex(buf) + 1..] == r.value.1;
      Ok(r.value.1)
  }

  // ----- encoding: the length of an encoding and the C++ code

  /** n bytes are enough exactly for the values below 128^n. */
  lemma {:induction false} EncodeLength(v: nat, n: nat)
    requires n >= 1
    ensures |Encode(v)| <= n <==> v < Pow2(7 * n)
    decreases n
  {
    Pow2Small();
    Pow2Add(7, 7 * n - 7);
    if n == 1 {
    } else if v < 128 {
      Pow2Monotone(7, 7 * n);
    } else {
      EncodeLength(v / 128, n - 1);
    }
  }

  lemma EncodeFits(w: Width, v: nat)
    requires v < w.Modulus()
    ensures |Encode(v)| <= w.MaxSize()
  {
    hide Pow2;
    Pow2Monotone(8 * w.Size(), 7 * w.MaxSize());
    EncodeLength(v, w.MaxSize());
  }

  lemma SplitSevenBits(v: nat)
    ensures BitAnd(v, 0x7f) == v % 128 && Shr(v, 7) == v / 128
    ensures BitOr(v % 128, 0x80) == 128 + v % 128
  {
    Pow2Small();
    AndMask(v, 7);
    OrLowHigh(v % 128, 1, 7);
    assert Shl(1, 7) == 128;
  }

  /** What belongs at the end of the buffer while `v` is left to encode and the last byte in use holds `last`. */
  ghost function Pending(v: nat, last: byte): seq<byte> {
    if v == 0 then [last] else Encode(v)
  }

  lemma EncodeZero()
    ensures Encode(0) == [0]
  {
  }

  lemma PendingStep(done: seq<byte>, v: nat, last: byte)
    requires v > 0 && last == v % 128
    ensures v / 128 > 0 ==> done + Encode(v) == done + [128 + last] + Encode(v / 128)
    ensures v / 128 == 0 ==> Encode(v) == [last]
    ensures Encode(v / 128) != [] && |Encode(v)| == if v / 128 > 0 then 1 + |Encode(v / 128)| else 1
  {
  }

  /** The encoder: a buffer of fixed size and the number of bytes used. */
  class UnsignedLeb128 {
    const encodedData: array<byte>
    var encodedSize: nat

    ghost predicate Valid()
      reads this, encodedData
    {
      1 <= encodedSize <= encodedData.Length
    }

    /** `get`. */
    function Get(): seq<byte>
      requires Valid()
      reads this, encodedData
    {
      encodedData[..encodedSize]
    }

    /** Every write stays inside the `maxSize` bytes of the buffer. */
    constructor (w: Width, value: nat)
      requires value < w.Modulus()
      ensures Valid() && fresh(encodedData)
      ensures encodedData.Length == w.MaxSize()
      ensures Get() == Encode(value)
    {
      encodedData := new byte[w.MaxSize()](_ => 0);
      encodedSize := 1;
      new;
      EncodeFits(w, value);
      Fill(value);
    }

    /** The loop of the constructor, on a buffer of zeros. */
    method Fill(value: nat)
      requires encodedSize == 1 && |Encode(value)| <= encodedData.Length
      requires encodedData[0] == 0
      modifies this, encodedData
      ensures Valid() && Get() == Encode(value)
    {
      hide BitAnd, BitOr, Shr, Encode;
      var v := value;
      ghost var done: seq<byte> := [];
      EncodeZero();
      assert done + Pending(v, 0) == Encode(value);
      while v > 0
        invariant Valid()
        invariant encodedData[..encodedSize - 1] == done
        invariant done + Pending(v, encodedData[encodedSize - 1]) == Encode(value)
        decreases v
      {
        SplitSevenBits(v);
        var b := BitAnd(v, 0x7f);
        PendingStep(done, v, b);
        v := Shr(v, 7);
        if v > 0 {
          b := BitOr(b, 0x80);
          encodedData[encodedSize - 1] := b;
          done := done + [b];
          encodedSize := encodedSize + 1;
        } else {
          encodedData[encodedSize - 1] := b;
        }
      }
      assert encodedData[..encodedSize] == done + [encodedData[encodedSize - 1]];
    }
  }
}
