/** What the LEB128 codec guarantees: round trips with any suffix, unique decodability of streams,
    the buffer bound and minimality, and when decoding can be undone. */
module Leb128Theorems {
  import opened Bits
  import opened Wrappers
  import opened Leb128

  lemma {:induction false} EncodeValue(v: nat)
    ensures Value(Encode(v)) == v
  {
    if v < 128 {
      assert Encode(v)[1..] == [];
    } else {
      EncodeValue(v / 128);
      assert Encode(v)[1..] == Encode(v / 128);
    }
  }

  lemma {:induction false} EncodeShape(v: nat, r: seq<byte>)
    ensures StopIndex(Encode(v) + r) == |Encode(v)| - 1
    ensures Value(Encode(v)) == v
  {
    hide Value;
    EncodeValue(v);
    if v >= 128 {
      EncodeShape(v / 128, r);
      assert (Encode(v) + r)[1..] == Encode(v / 128) + r;
    }
  }

  lemma SmallMod(v: nat, m: nat)
    requires v < m
    ensures v % m == v
  {
    ModUnique(v, m, 0, v);
  }

  /** Decoding an encoding followed by anything gives back the value and exactly what follows, in every form. */
  lemma RoundTripWithSuffix(w: Width, v: nat, r: seq<byte>)
    requires v < w.Modulus()
    ensures Defined(Encode(v) + r)
    ensures Decoded(w, Encode(v) + r) == (v, Bytes(r))
    ensures Decode(w, Encode(v) + r) == Ok((v, r))
    ensures Skip(w, Encode(v) + r) == Ok(r)
  {
    hide Pow2, Encode, Value;
    var s := Encode(v);
    EncodeShape(v, r);
    EncodeFits(w, v);
    SmallMod(v, w.Modulus());
    assert (s + r)[..|s|] == s && (s + r)[|s|..] == r;
  }

  /** No encoding is a prefix of the encoding of another value. */
  lemma PrefixFree(u: nat, v: nat)
    requires Encode(u) <= Encode(v)
    ensures u == v
  {
    hide Encode, Value, StopIndex;
    var r := Encode(v)[|Encode(u)|..];
    assert Encode(v) == Encode(u) + r;
    assert Encode(v) + [] == Encode(v);
    EncodeShape(u, r);
    EncodeShape(v, []);
    EncodeShape(u, []);
    assert Encode(u) == Encode(v);
  }

  // ----- streams

  function Stream(vs: seq<nat>): seq<byte> {
    if vs == [] then [] else Encode(vs[0]) + Stream(vs[1..])
  }

  predicate AllFit(w: Width, vs: seq<nat>) {
    forall i :: 0 <= i < |vs| ==> vs[i] < w.Modulus()
  }

  /** Decoding again and again until nothing remains; `None` when a call throws or is undefined. */
  function DecodeAll(w: Width, buf: seq<byte>): Option<seq<nat>> {
    if buf == [] then Some([])
    else if !Defined(buf) then None
    else
      match Decode(w, buf)
      case Err(_) => None
      case Ok((v, rest)) =>
        if |rest| >= |buf| then None
        else
          match DecodeAll(w, rest)
          case None => None
          case Some(vs) => Some([v] + vs)
  }

  /** A concatenation of encodings is read back value by value, with nothing left over. */
  lemma {:induction false} StreamRoundTrip(w: Width, vs: seq<nat>)
    requires AllFit(w, vs)
    ensures DecodeAll(w, Stream(vs)) == Some(vs)
  {
    hide Encode, Defined, Decode, Pow2, Value, StopIndex;
    if vs != [] {
      RoundTripWithSuffix(w, vs[0], Stream(vs[1..]));
      StreamRoundTrip(w, vs[1..]);
      assert vs == [vs[0]] + vs[1..];
    }
  }

  /** Hence two lists with the same stream are the same list. */
  lemma StreamInjective(w: Width, us: seq<nat>, vs: seq<nat>)
    requires AllFit(w, us) && AllFit(w, vs) && Stream(us) == Stream(vs)
    ensures us == vs
  {
    hide Stream, DecodeAll;
    StreamRoundTrip(w, us);
    StreamRoundTrip(w, vs);
  }

  // ----- size

  /** The buffer is as long as the longest encoding: no encoding is longer, and the largest value needs all of it. */
  lemma BufferIsTight(w: Width, v: nat)
    requires v < w.Modulus()
    ensures |Encode(v)| <= w.MaxSize() == |Encode(w.Modulus() - 1)|
  {
    hide Encode, Pow2;
    EncodeFits(w, v);
    EncodeFits(w, w.Modulus() - 1);
    var n := w.MaxSize() - 1;
    EncodeLength(w.Modulus() - 1, n);
    Pow2Monotone(7 * n + 1, 8 * w.Size());
    Pow2Add(1, 7 * n);
    assert Pow2(1) == 2 by { Pow2One(); }
  }

  lemma Pow2One()
    ensures Pow2(1) == 2
  {
  }

  /** A single encoded number: the stop byte is the last one. */
  predicate IsNumber(s: seq<byte>) {
    s != [] && StopIndex(s) == |s| - 1
  }

  /** No shorter number decodes to the same value, at any width that holds it. */
  lemma Minimal(w: Width, v: nat, s: seq<byte>)
    requires v < w.Modulus() && IsNumber(s) && |s| < |Encode(v)|
    ensures Decoded(w, s).0 != v
  {
    hide Encode, Value, Pow2;
    EncodeLength(v, |s|);
    ValueBound(s);
    ModAtMost(Value(s), w.Modulus());
    assert s[..|s|] == s;
  }

  // ----- when decoding can be undone

  /** Without a leading zero group, a number is the encoding of its value. */
  lemma {:induction false} NumberReencodes(s: seq<byte>)
    requires IsNumber(s) && (|s| == 1 || s[|s| - 1] != 0)
    ensures Encode(Value(s)) == s
  {
    hide Encode;
    if |s| == 1 {
      EncodeSmall(s[0]);
      assert s[1..] == [];
    } else {
      var t := s[1..];
      NumberReencodes(t);
      NumberPositive(t);
      var v := Value(t);
      EncodeGroup(s[0], v);
      assert s == [s[0]] + t;
    }
  }

  lemma EncodeSmall(b: byte)
    requires b < 128
    ensures Encode(b) == [b]
  {
  }

  lemma EncodeGroup(b: byte, v: nat)
    requires b >= 128 && v > 0
    ensures Encode(b % 128 + 128 * v) == [b] + Encode(v)
  {
    var n := b % 128 + 128 * v;
    ModUnique(n, 128, v, b % 128);
    assert Encode(n) == [128 + n % 128] + Encode(n / 128);
  }

  lemma {:induction false} NumberPositive(s: seq<byte>)
    requires IsNumber(s) && s[|s| - 1] != 0
    ensures Value(s) > 0
  {
    if |s| > 1 { NumberPositive(s[1..]); }
  }

  lemma {:induction false} EncodeLastByte(v: nat)
    ensures var s := Encode(v); |s| == 1 || s[|s| - 1] != 0
    ensures v > 0 ==> Encode(v)[|Encode(v)| - 1] != 0
  {
    if v >= 128 { EncodeLastByte(v / 128); }
  }

  /** Encoding the decoded value gives back the consumed bytes exactly when nothing was cut off
      by the width of T and the number does not end in a superfluous zero byte. */
  lemma ReencodeIff(w: Width, buf: seq<byte>)
    requires Defined(buf) && StopIndex(buf) < |buf|
    ensures var s := buf[..StopIndex(buf) + 1];
            Encode(Decoded(w, buf).0) == s <==> Value(s) < w.Modulus() && (|s| == 1 || s[|s| - 1] != 0)
  {
    hide Encode, Value, Pow2;
    var k := StopIndex(buf);
    var s := buf[..k + 1];
    StopIndexPrefix(buf);
    var v := Value(s) % w.Modulus();
    if Encode(v) == s {
      EncodeShape(v, []);
      EncodeLastByte(v);
      ModBelow(Value(s), w.Modulus());
    }
    if Value(s) < w.Modulus() && (|s| == 1 || s[|s| - 1] != 0) {
      SmallMod(Value(s), w.Modulus());
      NumberReencodes(s);
    }
  }

  lemma ModBelow(v: nat, m: nat)
    requires m > 0
    ensures v % m < m
  {
  }

  lemma {:induction false} StopIndexPrefix(buf: seq<byte>)
    requires StopIndex(buf) < |buf|
    ensures IsNumber(buf[..StopIndex(buf) + 1])
  {
    if buf[0] >= 128 {
      StopIndexPrefix(buf[1..]);
      assert buf[..StopIndex(buf) + 1][1..] == buf[1..][..StopIndex(buf[1..]) + 1];
    }
  }

  /** A buffer without a stop byte is an error in both forms, and nothing else is. */
  lemma ErrorsIff(w: Width, buf: seq<byte>)
    requires Defined(buf)
    ensures (forall i :: 0 <= i < |buf| ==> buf[i] >= 128) <==> Decoded(w, buf).1 == Null
    ensures Decoded(w, buf).1 == Null ==> Decoded(w, buf).0 == 0 && Decode(w, buf) == Err(InvalidBufSize(|buf|))
    ensures Decoded(w, buf).1 == Null <==> Decode(w, buf).Err?
  {
    hide Value, Pow2;
    var k := StopIndex(buf);
    if k < |buf| { assert buf[k] < 128; }
  }
}
