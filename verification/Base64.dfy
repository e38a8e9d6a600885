/** The Base64 codec of platform/base64.cc: the RFC 4648 alphabet, the encoder with its
    pretty-print mode and the decoder. The methods follow the C++ code statement by statement,
    shifts and bitwise operators included; each is proved equal to a function of its input. */
module Base64 {
  import opened Bits
  import opened Wrappers

  datatype Error = InvalidCharacter | TruncatedQuad | InvalidTailSize

  const PAD: byte := '=' as int
  const NEWLINE: byte := '\n' as int

  const UPPER := "ABCDEFGHIJKLMNOPQRSTUVWXYZ"
  const LOWER := "abcdefghijklmnopqrstuvwxyz"
  const DIGITS := "0123456789"
  const CODEMAP: string := UPPER + LOWER + DIGITS + "+/"

  /** `std::isspace` in the C locale. */
  predicate IsSpace(c: byte) {
    c == ' ' as int || '\t' as int <= c <= '\r' as int
  }

  predicate IsSymbol(c: byte) {
    || 'A' as int <= c <= 'Z' as int
    || 'a' as int <= c <= 'z' as int
    || '0' as int <= c <= '9' as int
    || c == '+' as int
    || c == '/' as int
  }

  /** The six-bit value of an alphabet character. */
  function Val(c: byte): (v: nat)
    requires IsSymbol(c)
    ensures v < 64
  {
    if 'A' as int <= c <= 'Z' as int then c - 'A' as int
    else if 'a' as int <= c <= 'z' as int then c - 'a' as int + 26
    else if '0' as int <= c <= '9' as int then c - '0' as int + 52
    else if c == '+' as int then 62
    else 63
  }

  lemma UpperAt(i: nat)
    requires i < 26
    ensures |UPPER| == 26 && UPPER[i] as int == 'A' as int + i
  {
  }

  lemma LowerAt(i: nat)
    requires i < 26
    ensures |LOWER| == 26 && LOWER[i] as int == 'a' as int + i
  {
  }

  lemma DigitAt(i: nat)
    requires i < 10
    ensures |DIGITS| == 10 && DIGITS[i] as int == '0' as int + i
  {
  }

  /** The character for a six-bit value: the inverse of `Val`. */
  function Code(i: nat): (c: byte)
    requires i < 64
    ensures IsSymbol(c) && Val(c) == i
  {
    if i < 26 then 'A' as int + i
    else if i < 52 then 'a' as int + (i - 26)
    else if i < 62 then '0' as int + (i - 52)
    else if i == 62 then '+' as int
    else '/' as int
  }

  /** The lookup table of the encoder holds exactly these characters. */
  lemma CodemapAt(i: nat)
    requires i < 64
    ensures |CODEMAP| == 64 && CODEMAP[i] as int == Code(i)
  {
    UpperAt(if i < 26 then i else 0);
    LowerAt(if 26 <= i < 52 then i - 26 else 0);
    DigitAt(if 52 <= i < 62 then i - 52 else 0);
  }

  function Lookup(i: nat): (c: byte)
    requires i < 64
    ensures c == Code(i)
  {
    CodemapAt(i);
    CODEMAP[i] as int
  }

  /** A character is determined by its value, so `Code` and `Val` are a bijection. */
  lemma CodeOfVal(c: byte)
    requires IsSymbol(c)
    ensures Code(Val(c)) == c
  {
    assert Val(Code(Val(c))) == Val(c);
  }

  /** `code2val`. */
  function Code2Val(code: byte): (r: Result<nat, Error>)
    ensures r == if IsSymbol(code) then Ok(Val(code)) else Err(InvalidCharacter)
  {
    if code >= 'A' as int && code <= 'Z' as int then Ok(code - 'A' as int)
    else if code >= 'a' as int && code <= 'z' as int then Ok(code - 'a' as int + 26)
    else if code >= '0' as int && code <= '9' as int then Ok(code - '0' as int + 52)
    else if code == '+' as int then Ok(62)
    else if code == '/' as int then Ok(63)
    else Err(InvalidCharacter)
  }

  // ----- encoding: specification

  /** Three bytes as four characters: the 24 bits, six at a time. */
  function Group(x: byte, y: byte, z: byte): (q: seq<byte>)
    ensures |q| == 4
  {
    [Code(x / 4), Code(x % 4 * 16 + y / 16), Code(y % 16 * 4 + z / 64), Code(z % 64)]
  }

  /** One or two final bytes, zero bits added on the right and padded to four characters. */
  function Tail(b: seq<byte>): (q: seq<byte>)
    requires 1 <= |b| <= 2
    ensures |q| == 4
  {
    if |b| == 1 then [Code(b[0] / 4), Code(b[0] % 4 * 16), PAD, PAD]
    else [Code(b[0] / 4), Code(b[0] % 4 * 16 + b[1] / 16), Code(b[1] % 16 * 4), PAD]
  }

  /** The encoding without line breaks. */
  function Plain(b: seq<byte>): (s: seq<byte>)
    ensures |s| == (|b| + 2) / 3 * 4
  {
    if b == [] then []
    else if |b| < 3 then Tail(b)
    else Group(b[0], b[1], b[2]) + Plain(b[3..])
  }

  /** Whole triplets and what follows them are encoded separately. */
  lemma {:induction false} PlainConcat(t: seq<byte>, b: seq<byte>)
    requires |t| % 3 == 0
    ensures Plain(t + b) == Plain(t) + Plain(b)
  {
    hide Group, Tail;
    if t == [] {
      assert t + b == b;
    } else {
      assert (t + b)[3..] == t[3..] + b;
      PlainConcat(t[3..], b);
    }
  }

  /** The pretty-printed encoding: one line of at most 64 characters for every 48 bytes. */
  function Pretty(b: seq<byte>): seq<byte> {
    if b == [] then []
    else if |b| <= 48 then Plain(b) + [NEWLINE]
    else Plain(b[..48]) + [NEWLINE] + Pretty(b[48..])
  }

  /** What the encoder's loop and tail append when `room` triplets still fit on the current line;
      without pretty-printing lines do not end. */
  ghost function Body(b: seq<byte>, room: nat, prettyprint: bool): seq<byte>
    requires 1 <= room <= 16
  {
    if b == [] then []
    else if |b| < 3 then Tail(b)
    else if prettyprint && room == 1 then Group(b[0], b[1], b[2]) + [NEWLINE] + Body(b[3..], 16, true)
    else Group(b[0], b[1], b[2]) + Body(b[3..], if room == 1 then 16 else room - 1, prettyprint)
  }

  /** One turn of the loop, whether or not it ends a line. */
  lemma BodyStep(b: seq<byte>, room: nat, prettyprint: bool)
    requires 1 <= room <= 16 && |b| >= 3
    ensures Body(b, room, prettyprint)
         == Group(b[0], b[1], b[2]) + (if prettyprint && room == 1 then [NEWLINE] else [])
            + Body(b[3..], if room == 1 then 16 else room - 1, prettyprint)
  {
    hide Group, Tail;
    assert Group(b[0], b[1], b[2]) + [] == Group(b[0], b[1], b[2]);
  }

  lemma BodyEnd(b: seq<byte>, room: nat, prettyprint: bool)
    requires 1 <= room <= 16 && |b| < 3
    ensures Body(b, room, prettyprint) == if b == [] then [] else Tail(b)
  {
    hide Tail;
  }

  lemma PlainStep(b: seq<byte>)
    requires |b| >= 3
    ensures Plain(b) == Group(b[0], b[1], b[2]) + Plain(b[3..])
  {
    hide Group, Tail;
  }

  lemma PlainEmpty()
    ensures Plain([]) == []
  {
  }

  lemma {:induction false} BodyPlain(b: seq<byte>, room: nat)
    requires 1 <= room <= 16
    ensures Body(b, room, false) == Plain(b)
  {
    hide Group, Tail;
    if |b| >= 3 { BodyPlain(b[3..], if room == 1 then 16 else room - 1); }
  }

  /** No line break falls inside the rest of a line. */
  lemma {:induction false} BodyOfLine(b: seq<byte>, room: nat)
    requires 1 <= room <= 16 && |b| <= 3 * room
    ensures Body(b, room, true) == Plain(b) + if |b| == 3 * room then [NEWLINE] else []
  {
    hide Group, Tail;
    if |b| >= 3 && room > 1 { BodyOfLine(b[3..], room - 1); }
  }

  /** A longer input completes the current line and starts another. */
  lemma {:induction false} BodySplit(b: seq<byte>, room: nat)
    requires 1 <= room <= 16 && |b| > 3 * room
    ensures Body(b, room, true) == Plain(b[..3 * room]) + [NEWLINE] + Body(b[3 * room..], 16, true)
    decreases room
  {
    hide Group, Body, Plain;
    var g, line := Group(b[0], b[1], b[2]), b[..3 * room];
    assert line[3..] == b[3..][..3 * room - 3];
    BodyStep(b, room, true);
    PlainStep(line);
    if room > 1 {
      BodySplit(b[3..], room - 1);
      assert b[3..][3 * room - 3..] == b[3 * room..];
      var head, rest := Plain(line[3..]), Body(b[3 * room..], 16, true);
      assert g + [] + (head + [NEWLINE] + rest) == g + head + [NEWLINE] + rest;
    } else {
      assert line[3..] == [];
      PlainEmpty();
    }
  }

  /** The closing newline, added when the text does not end in one already. */
  ghost function Closed(s: seq<byte>): seq<byte>
    requires s != []
  {
    if s[|s| - 1] != NEWLINE then s + [NEWLINE] else s
  }

  lemma {:induction false} PlainEnd(b: seq<byte>)
    requires b != []
    ensures Plain(b) != [] && Plain(b)[|Plain(b)| - 1] != NEWLINE
  {
    if |b| > 3 { PlainEnd(b[3..]); }
  }

  lemma {:induction false} PrettyIsBody(b: seq<byte>)
    requires b != []
    ensures Body(b, 16, true) != [] && Closed(Body(b, 16, true)) == Pretty(b)
    decreases |b|
  {
    hide Plain, Body;
    if |b| <= 48 {
      PlainEnd(b);
      BodyOfLine(b, 16);
    } else {
      BodySplit(b, 16);
      PrettyIsBody(b[48..]);
      var line, rest := Plain(b[..48]) + [NEWLINE], Body(b[48..], 16, true);
      assert Closed(line + rest) == line + Closed(rest);
    }
  }

  // ----- encoding: the C++ code

  lemma Shifts(v: nat)
    ensures Shl(v, 6) == v * 64 && Shl(v, 8) == v * 256 && Shl(v, 12) == v * 4096
    ensures Shl(v, 16) == v * 65536 && Shl(v, 18) == v * 262144
  {
    Pow2Small();
    Pow2Base64();
  }

  lemma RightShifts(v: nat)
    ensures Shr(v, 6) == v / 64 && Shr(v, 8) == v / 256 && Shr(v, 12) == v / 4096
    ensures Shr(v, 16) == v / 65536 && Shr(v, 18) == v / 262144
  {
    Pow2Small();
    Pow2Base64();
  }

  lemma SixBitMask(v: nat)
    ensures BitAnd(v, 63) == v % 64
  {
    Pow2Small();
    AndMask(v, 6);
  }

  lemma Join3(x: byte, y: byte, z: byte)
    ensures BitOr(BitOr(Shl(x, 16), Shl(y, 8)), z) == x * 65536 + y * 256 + z
    ensures BitOr(Shl(x, 16), Shl(y, 8)) == x * 65536 + y * 256
    ensures Shl(x, 16) == x * 65536
  {
    Pow2Small();
    Pow2Base64();
    OrLowHigh(Shl(y, 8), x, 16);
    Shifts(x);
    Shifts(y);
    Shifts(x * 256 + y);
    OrLowHigh(z, x * 256 + y, 8);
  }

  lemma SextetsOfBytes(x: byte, y: byte, z: byte)
    ensures var v := x * 65536 + y * 256 + z;
            && v / 262144 == x / 4
            && v / 4096 % 64 == x % 4 * 16 + y / 16
            && v / 64 % 64 == y % 16 * 4 + z / 64
            && v % 64 == z % 64
  {
    var v := x * 65536 + y * 256 + z;
    ModUnique(v, 262144, x / 4, x % 4 * 65536 + y * 256 + z);
    ModUnique(v, 4096, x * 16 + y / 16, y % 16 * 256 + z);
    ModUnique(x * 16 + y / 16, 64, x / 4, x % 4 * 16 + y / 16);
    ModUnique(v, 64, x * 1024 + y * 4 + z / 64, z % 64);
    ModUnique(x * 1024 + y * 4 + z / 64, 64, x * 16 + y / 16, y % 16 * 4 + z / 64);
  }

  /** What the shifts and masks pick out of the joined bytes. */
  lemma TripletSextets(x: byte, y: byte, z: byte)
    ensures var v := x * 65536 + y * 256 + z;
            && BitAnd(Shr(v, 18), 63) == x / 4
            && BitAnd(Shr(v, 12), 63) == x % 4 * 16 + y / 16
            && BitAnd(Shr(v, 6), 63) == y % 16 * 4 + z / 64
            && BitAnd(v, 63) == z % 64
  {
    hide Shr, BitAnd;
    var v := x * 65536 + y * 256 + z;
    SextetsOfBytes(x, y, z);
    RightShifts(v);
    SixBitMask(x / 4);
    SixBitMask(v / 4096);
    SixBitMask(v / 64);
    SixBitMask(v);
  }

  /** `encode_triplet`. */
  method EncodeTriplet(s: seq<byte>, str: seq<byte>) returns (out: seq<byte>)
    requires |s| >= 3
    ensures out == str + Group(s[0], s[1], s[2])
  {
    hide Shl, Shr, BitAnd, BitOr, Lookup, Code;
    var val := BitOr(BitOr(Shl(s[0], 16), Shl(s[1], 8)), s[2]);
    Join3(s[0], s[1], s[2]);
    TripletSextets(s[0], s[1], s[2]);
    out := str + [Lookup(BitAnd(Shr(val, 18), 63))];
    out := out + [Lookup(BitAnd(Shr(val, 12), 63))];
    out := out + [Lookup(BitAnd(Shr(val, 6), 63))];
    out := out + [Lookup(BitAnd(val, 63))];
  }

  /** `encode_rest`. */
  method EncodeRest(s: seq<byte>, str: seq<byte>, num: nat) returns (r: Result<seq<byte>, Error>)
    requires num <= |s|
    ensures r == if 1 <= num <= 2 then Ok(str + Tail(s[..num])) else Err(InvalidTailSize)
    ensures r.Ok? ==> |r.value| == |str| + 4 && r.value[|str| + 3] == 61 && (r.value[|str| + 2] == 61 <==> num == 1)
  {
    hide Shl, Shr, BitAnd, BitOr, Lookup, Code;
    var val := 0;
    if num == 2 {
      val := BitOr(Shl(s[0], 16), Shl(s[1], 8));
      Join3(s[0], s[1], 0);
      TripletSextets(s[0], s[1], 0);
    } else if num == 1 {
      val := Shl(s[0], 16);
      Join3(s[0], 0, 0);
      TripletSextets(s[0], 0, 0);
    } else {
      return Err(InvalidTailSize);
    }
    var out := str + [Lookup(BitAnd(Shr(val, 18), 63))];
    out := out + [Lookup(BitAnd(Shr(val, 12), 63))];
    if num == 2 {
      out := out + [Lookup(BitAnd(Shr(val, 6), 63))];
    } else {
      out := out + [PAD];
    }
    out := out + [PAD];
    assert out == str + Tail(s[..num]);
    r := Ok(out);
  }

  /** What a turn of the loop moves from the text still to come to the text written. */
  lemma Turn(before: seq<byte>, left: seq<byte>, room: nat, prettyprint: bool, out: seq<byte>)
    requires 1 <= room <= 16 && |left| >= 3
    requires out == before + Group(left[0], left[1], left[2]) + (if prettyprint && room == 1 then [NEWLINE] else [])
    ensures before + Body(left, room, prettyprint)
         == out + Body(left[3..], if room == 1 then 16 else room - 1, prettyprint)
  {
    hide Group, Body;
    BodyStep(left, room, prettyprint);
  }

  /** `encode`. Reading the last character of an empty result is undefined in C++, hence the precondition. */
  method Encode(blob: seq<byte>, prettyprint: bool) returns (result: seq<byte>)
    requires prettyprint ==> blob != []
    ensures result == if prettyprint then Pretty(blob) else Plain(blob)
  {
    hide Group, Tail, Plain, Pretty, Body;
    var triplets, rest := |blob| / 3, |blob| % 3;
    result := [];
    var offset, chunks := 0, 0;
    ghost var room := 16;
    assert blob[0..] == blob;
    for ii := 0 to triplets
      invariant offset == 3 * ii && 1 <= room <= 16
      invariant prettyprint ==> (chunks + room) % 16 == 0
      invariant Body(blob, 16, prettyprint) == result + Body(blob[offset..], room, prettyprint)
    {
      ghost var left, before := blob[offset..], result;
      assert left[3..] == blob[offset + 3..];
      result := EncodeTriplet(blob[offset..offset + 3], result);
      ghost var group := Group(left[0], left[1], left[2]);
      assert result == before + group == before + group + [];
      offset := offset + 3;
      if prettyprint {
        chunks := chunks + 1;
        if chunks % 16 == 0 {
          result := result + [NEWLINE];
        }
      }
      ghost var next := if room == 1 then 16 else room - 1;
      Turn(before, left, room, prettyprint, result);
      room := next;
    }
    BodyEnd(blob[offset..], room, prettyprint);
    if rest > 0 {
      assert blob[offset..][..rest] == blob[offset..];
      var tail := EncodeRest(blob[offset..], result, rest);
      result := tail.value;
    }
    assert result == Body(blob, 16, prettyprint);
    if prettyprint {
      PrettyIsBody(blob);
      if result[|result| - 1] != NEWLINE {
        result := result + [NEWLINE];
      }
    } else {
      BodyPlain(blob, 16);
    }
  }

  // ----- decoding: specification

  /** Four characters as one, two or three bytes. The fourth is not looked at after a pad in third place. */
  function DecodeQuad(q: seq<byte>): (r: Result<seq<byte>, Error>)
    requires |q| == 4
    ensures r.Ok? ==> 1 <= |r.value| <= 3
  {
    if !IsSymbol(q[0]) || !IsSymbol(q[1]) then Err(InvalidCharacter)
    else
      var x := Val(q[0]) * 4 + Val(q[1]) / 16;
      if q[2] == PAD then Ok([x])
      else if !IsSymbol(q[2]) then Err(InvalidCharacter)
      else
        var y := Val(q[1]) % 16 * 16 + Val(q[2]) / 4;
        if q[3] == PAD then Ok([x, y])
        else if !IsSymbol(q[3]) then Err(InvalidCharacter)
        else Ok([x, y, Val(q[2]) % 4 * 64 + Val(q[3])])
  }

  function Decode(s: seq<byte>): Result<seq<byte>, Error> {
    if s == [] then Ok([])
    else if IsSpace(s[0]) then Decode(s[1..])
    else if |s| < 4 then Err(TruncatedQuad)
    else Append(DecodeQuad(s[..4]), Decode(s[4..]))
  }

  /** Output followed by output; the first exception wins. */
  function Append(first: Result<seq<byte>, Error>, rest: Result<seq<byte>, Error>): Result<seq<byte>, Error> {
    if first.Err? then first
    else if rest.Err? then rest
    else Ok(first.value + rest.value)
  }

  // ----- decoding: the C++ code

  /** The value accumulated from the sextets, and the bytes the shifts and truncations pick out of it. */
  lemma Join4(a: nat, b: nat, c: nat, d: nat)
    requires a < 64 && b < 64 && c < 64 && d < 64
    ensures BitOr(Shl(a, 18), Shl(b, 12)) == a * 262144 + b * 4096
    ensures BitOr(a * 262144 + b * 4096, Shl(c, 6)) == a * 262144 + b * 4096 + c * 64
    ensures BitOr(a * 262144 + b * 4096 + c * 64, d) == a * 262144 + b * 4096 + c * 64 + d
  {
    Pow2Small();
    Pow2Base64();
    Shifts(a);
    Shifts(b);
    Shifts(c);
    OrLowHigh(Shl(b, 12), a, 18);
    Shifts(a * 64 + b);
    OrLowHigh(Shl(c, 6), a * 64 + b, 12);
    Shifts(a * 4096 + b * 64 + c);
    OrLowHigh(d, a * 4096 + b * 64 + c, 6);
  }

  lemma BytesOfSextets(a: nat, b: nat, c: nat, d: nat)
    requires a < 64 && b < 64 && c < 64 && d < 64
    ensures var v := a * 262144 + b * 4096 + c * 64 + d;
            && Shr(v, 16) % 256 == a * 4 + b / 16
            && Shr(v, 8) % 256 == b % 16 * 16 + c / 4
            && v % 256 == c % 4 * 64 + d
  {
    var v := a * 262144 + b * 4096 + c * 64 + d;
    RightShifts(v);
    ModUnique(v, 65536, a * 4 + b / 16, b % 16 * 4096 + c * 64 + d);
    ModUnique(v, 256, a * 1024 + b * 16 + c / 4, c % 4 * 64 + d);
    ModUnique(a * 1024 + b * 16 + c / 4, 256, a * 4 + b / 16, b % 16 * 16 + c / 4);
  }

  /** `decode_quad`: the characters pushed onto `d`, and how many. */
  method DecodeQuadBits(s: seq<byte>, d: seq<byte>) returns (r: Result<seq<byte>, Error>, ret: nat)
    requires |s| == 4
    ensures r == Append(Ok(d), DecodeQuad(s))
    ensures r.Ok? ==> ret == |r.value| - |d|
  {
    hide Shl, Shr, BitOr, Code2Val, Val, IsSymbol;
    ret := 3;
    var c0 := Code2Val(s[0]);
    if c0.Err? { return Err(c0.error), ret; }
    var value := Shl(c0.value, 18);
    var c1 := Code2Val(s[1]);
    if c1.Err? { return Err(c1.error), ret; }
    ghost var v2, v3 := 0, 0;
    Join4(c0.value, c1.value, v2, v3);
    value := BitOr(value, Shl(c1.value, 12));
    if s[2] == PAD {
      ret := 1;
    } else {
      var c2 := Code2Val(s[2]);
      if c2.Err? { return Err(c2.error), ret; }
      v2 := c2.value;
      Join4(c0.value, c1.value, v2, v3);
      value := BitOr(value, Shl(c2.value, 6));
      if s[3] == PAD {
        ret := 2;
      } else {
        var c3 := Code2Val(s[3]);
        if c3.Err? { return Err(c3.error), ret; }
        v3 := c3.value;
        Join4(c0.value, c1.value, v2, v3);
        value := BitOr(value, c3.value);
      }
    }
    BytesOfSextets(c0.value, c1.value, v2, v3);
    var out := d + [Shr(value, 16) % 256];
    if ret > 1 {
      out := out + [Shr(value, 8) % 256];
      if ret > 2 {
        out := out + [value % 256];
      }
    }
    assert out == d + DecodeQuad(s).value;
    r := Ok(out);
  }

  /** `decode`. */
  method DecodeText(blob: seq<byte>) returns (r: Result<seq<byte>, Error>)
    ensures r == Decode(blob)
  {
    var destination := [];
    if blob == [] {
      return Ok(destination);
    }
    var offset := 0;
    assert blob[0..] == blob;
    AppendEmpty(Decode(blob));
    while offset < |blob|
      invariant offset <= |blob|
      invariant Decode(blob) == Append(Ok(destination), Decode(blob[offset..]))
    {
      ghost var left := blob[offset..];
      if IsSpace(blob[offset]) {
        assert left[1..] == blob[offset + 1..];
        offset := offset + 1;
        continue;
      }
      if offset + 4 > |blob| {
        return Err(TruncatedQuad);
      }
      assert left[..4] == blob[offset..offset + 4];
      assert left[4..] == blob[offset + 4..];
      ghost var before := destination;
      var quad, _ := DecodeQuadBits(blob[offset..offset + 4], destination);
      if quad.Err? {
        return quad;
      }
      destination := quad.value;
      AppendAssociative(Ok(before), DecodeQuad(left[..4]), Decode(left[4..]));
      offset := offset + 4;
    }
    assert blob[offset..] == [];
    AppendEmpty(Ok(destination));
    r := Ok(destination);
  }

  lemma AppendEmpty(r: Result<seq<byte>, Error>)
    ensures Append(Ok([]), r) == r && Append(r, Ok([])) == r
  {
    if r.Ok? { assert [] + r.value == r.value == r.value + []; }
  }

  lemma AppendAssociative(a: Result<seq<byte>, Error>, b: Result<seq<byte>, Error>, c: Result<seq<byte>, Error>)
    ensures Append(Append(a, b), c) == Append(a, Append(b, c))
  {
    if a.Ok? && b.Ok? && c.Ok? {
      assert a.value + b.value + c.value == a.value + (b.value + c.value);
    }
  }
}
