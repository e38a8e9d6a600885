/** The shape of encoded text: which bits each character spells, as section 4 of RFC 4648 defines
    them, and where the pretty-printer breaks lines. */
module Base64Layout {
  import opened Bits
  import opened Base64

  // ----- the characters

  /** Table 1 in section 4 of RFC 4648. */
  const RFC_4648_ALPHABET := "ABCDEFGHIJKLMNOPQRSTUVWXYZ" + "abcdefghijklmnopqrstuvwxyz" + "0123456789" + "+/"

  /** The codec's table is the one of the standard, so that each value is written as the standard says. */
  lemma AlphabetIsStandard(i: nat)
    requires i < 64
    ensures CODEMAP == RFC_4648_ALPHABET && |RFC_4648_ALPHABET| == 64
    ensures Code(i) == RFC_4648_ALPHABET[i] as int
  {
    hide Code;
    CodemapAt(i);
  }

  /** The characters outside the alphabet, by their ASCII codes: a byte is skipped as white space if and only if it is a blank
      or one of the five codes from tab to carriage return. */
  lemma NamedCharacters(c: byte)
    ensures PAD == 61 && NEWLINE == 10
    ensures IsSpace(c) <==> c == 32 || c in {9, 10, 11, 12, 13}
    ensures IsSymbol(c) <==> 65 <= c <= 90 || 97 <= c <= 122 || 48 <= c <= 57 || c == 43 || c == 47
  {
  }

  // ----- the bits of the input, six at a time

  /** Bit `j` of a byte string, the most significant bit of the first byte being bit 0; zero past the end. */
  function Bit(b: seq<byte>, j: nat): nat {
    if j / 8 < |b| then Shr(b[j / 8], 7 - j % 8) % 2 else 0
  }

  /** The number spelt by bits 6k to 6k+5. */
  function SixBits(b: seq<byte>, k: nat): nat {
    32 * Bit(b, 6 * k) + 16 * Bit(b, 6 * k + 1) + 8 * Bit(b, 6 * k + 2)
    + 4 * Bit(b, 6 * k + 3) + 2 * Bit(b, 6 * k + 4) + Bit(b, 6 * k + 5)
  }

  lemma ByteShifts(x: byte)
    ensures Shr(x, 7) == x / 128 && Shr(x, 6) == x / 64 && Shr(x, 5) == x / 32 && Shr(x, 4) == x / 16
    ensures Shr(x, 3) == x / 8 && Shr(x, 2) == x / 4 && Shr(x, 1) == x / 2 && Shr(x, 0) == x
  {
    assert Pow2(2) == 4;
    assert Pow2(4) == 16;
    assert Pow2(6) == 64;
  }

  lemma Halves(x: byte)
    ensures x / 2 / 2 == x / 4 && x / 4 / 2 == x / 8 && x / 8 / 2 == x / 16 && x / 16 / 2 == x / 32
    ensures x / 32 / 2 == x / 64 && x / 64 / 2 == x / 128 && x / 128 / 2 == 0
  {
  }

  /** The upper and lower parts of a byte as sums of its bits. */
  lemma ByteParts(x: byte)
    ensures x / 4 == 32 * (x / 128 % 2) + 16 * (x / 64 % 2) + 8 * (x / 32 % 2)
                     + 4 * (x / 16 % 2) + 2 * (x / 8 % 2) + x / 4 % 2
    ensures x % 4 == 2 * (x / 2 % 2) + x % 2
    ensures x / 16 == 8 * (x / 128 % 2) + 4 * (x / 64 % 2) + 2 * (x / 32 % 2) + x / 16 % 2
    ensures x % 16 == 8 * (x / 8 % 2) + 4 * (x / 4 % 2) + 2 * (x / 2 % 2) + x % 2
    ensures x / 64 == 2 * (x / 128 % 2) + x / 64 % 2
    ensures x % 64 == 32 * (x / 32 % 2) + 16 * (x / 16 % 2) + 8 * (x / 8 % 2) + 4 * (x / 4 % 2) + 2 * (x / 2 % 2) + x % 2
  {
    Halves(x);
    ModUnique(x, 4, x / 4, 2 * (x / 2 % 2) + x % 2);
    ModUnique(x, 16, x / 16, 8 * (x / 8 % 2) + 4 * (x / 4 % 2) + 2 * (x / 2 % 2) + x % 2);
    ModUnique(x, 64, x / 64,
              32 * (x / 32 % 2) + 16 * (x / 16 % 2) + 8 * (x / 8 % 2) + 4 * (x / 4 % 2) + 2 * (x / 2 % 2) + x % 2);
  }

  /** One bit of a byte, the most significant being bit 0. */
  function ByteBit(x: byte, i: nat): nat
    requires i < 8
  {
    Shr(x, 7 - i) % 2
  }

  lemma BytePartBits(x: byte)
    ensures x / 4 == 32 * ByteBit(x, 0) + 16 * ByteBit(x, 1) + 8 * ByteBit(x, 2)
                     + 4 * ByteBit(x, 3) + 2 * ByteBit(x, 4) + ByteBit(x, 5)
    ensures x % 4 == 2 * ByteBit(x, 6) + ByteBit(x, 7)
    ensures x / 16 == 8 * ByteBit(x, 0) + 4 * ByteBit(x, 1) + 2 * ByteBit(x, 2) + ByteBit(x, 3)
    ensures x % 16 == 8 * ByteBit(x, 4) + 4 * ByteBit(x, 5) + 2 * ByteBit(x, 6) + ByteBit(x, 7)
    ensures x / 64 == 2 * ByteBit(x, 0) + ByteBit(x, 1)
    ensures x % 64 == 32 * ByteBit(x, 2) + 16 * ByteBit(x, 3) + 8 * ByteBit(x, 4)
                      + 4 * ByteBit(x, 5) + 2 * ByteBit(x, 6) + ByteBit(x, 7)
  {
    hide Shr;
    ByteShifts(x);
    ByteParts(x);
  }

  lemma BitsOfByte(b: seq<byte>, i: nat)
    ensures var x := if i < |b| then b[i] else 0;
            && Bit(b, 8 * i) == ByteBit(x, 0) && Bit(b, 8 * i + 1) == ByteBit(x, 1)
            && Bit(b, 8 * i + 2) == ByteBit(x, 2) && Bit(b, 8 * i + 3) == ByteBit(x, 3)
            && Bit(b, 8 * i + 4) == ByteBit(x, 4) && Bit(b, 8 * i + 5) == ByteBit(x, 5)
            && Bit(b, 8 * i + 6) == ByteBit(x, 6) && Bit(b, 8 * i + 7) == ByteBit(x, 7)
  {
    hide Shr;
    ByteShifts(0);
  }

  /** The byte at a place, zero past the end. */
  function ByteAt(b: seq<byte>, i: nat): byte {
    if i < |b| then b[i] else 0
  }

  /** The first four groups of six bits in terms of the first three bytes. */
  lemma FirstSixBits(b: seq<byte>)
    ensures SixBits(b, 0) == ByteAt(b, 0) / 4
    ensures SixBits(b, 1) == ByteAt(b, 0) % 4 * 16 + ByteAt(b, 1) / 16
  {
    hide Bit, ByteBit;
    BitsOfByte(b, 0);
    BitsOfByte(b, 1);
    BytePartBits(ByteAt(b, 0));
    BytePartBits(ByteAt(b, 1));
  }

  lemma NextSixBits(b: seq<byte>)
    ensures SixBits(b, 2) == ByteAt(b, 1) % 16 * 4 + ByteAt(b, 2) / 64
    ensures SixBits(b, 3) == ByteAt(b, 2) % 64
  {
    hide Bit, ByteBit;
    BitsOfByte(b, 1);
    BitsOfByte(b, 2);
    BytePartBits(ByteAt(b, 1));
    BytePartBits(ByteAt(b, 2));
  }

  lemma LaterBit(b: seq<byte>, j: nat)
    requires |b| >= 3 && j >= 24
    ensures Bit(b, j) == Bit(b[3..], j - 24)
  {
    hide Shr;
    assert (j - 24) / 8 == j / 8 - 3 && (j - 24) % 8 == j % 8;
  }

  lemma LaterSixBits(b: seq<byte>, k: nat)
    requires |b| >= 3 && k >= 4
    ensures SixBits(b, k) == SixBits(b[3..], k - 4)
  {
    hide Bit;
    LaterBit(b, 6 * k);
    LaterBit(b, 6 * k + 1);
    LaterBit(b, 6 * k + 2);
    LaterBit(b, 6 * k + 3);
    LaterBit(b, 6 * k + 4);
    LaterBit(b, 6 * k + 5);
  }

  /** Every character spells its six bits of the input, zero bits filling up the last one;
      the places left over in the last quad hold padding. */
  lemma CharactersSpellBits(b: seq<byte>, k: nat)
    requires k < |Plain(b)|
    ensures if 6 * k < 8 * |b| then SixBits(b, k) < 64 && Plain(b)[k] == RFC_4648_ALPHABET[SixBits(b, k)] as int
            else Plain(b)[k] == 61
  {
    hide SixBits, Code, Val, IsSymbol, Plain;
    CharactersHaveValues(b, k);
    if 6 * k < 8 * |b| {
      CodeOfVal(Plain(b)[k]);
      AlphabetIsStandard(SixBits(b, k));
    } else {
      NamedCharacters(0);
    }
  }

  lemma {:induction false} CharactersHaveValues(b: seq<byte>, k: nat)
    requires k < |Plain(b)|
    ensures if 6 * k < 8 * |b| then IsSymbol(Plain(b)[k]) && Val(Plain(b)[k]) == SixBits(b, k)
            else Plain(b)[k] == PAD
  {
    hide SixBits, Code, Val, IsSymbol;
    FirstSixBits(b);
    NextSixBits(b);
    if |b| >= 3 && k >= 4 {
      LaterSixBits(b, k);
      CharactersHaveValues(b[3..], k - 4);
    }
  }

  // ----- lines

  function WithoutNewlines(s: seq<byte>): seq<byte> {
    if s == [] then []
    else if s[0] == NEWLINE then WithoutNewlines(s[1..])
    else [s[0]] + WithoutNewlines(s[1..])
  }

  lemma {:induction false} WithoutNewlinesConcat(s: seq<byte>, t: seq<byte>)
    ensures WithoutNewlines(s + t) == WithoutNewlines(s) + WithoutNewlines(t)
  {
    if s == [] {
      assert s + t == t;
    } else {
      assert (s + t)[1..] == s[1..] + t;
      WithoutNewlinesConcat(s[1..], t);
    }
  }

  lemma {:induction false} PlainHasNoNewline(b: seq<byte>)
    ensures WithoutNewlines(Plain(b)) == Plain(b)
    ensures NEWLINE !in Plain(b)
  {
    var s := Plain(b);
    forall k | 0 <= k < |s|
      ensures s[k] != NEWLINE
    {
      CharactersHaveValues(b, k);
    }
    NothingRemoved(s);
  }

  lemma {:induction false} NothingRemoved(s: seq<byte>)
    requires NEWLINE !in s
    ensures WithoutNewlines(s) == s
  {
    if s != [] { NothingRemoved(s[1..]); }
  }

  /** With n chunks the text has 4n + ceil(n/16) characters; a newline stands after every 64th character
      of the encoding and at the very end, and nowhere else, so that every line but the last has exactly
      64 characters and the last at most 64; without the newlines it is the plain encoding. */
  lemma {:induction false} PrettyLayout(b: seq<byte>)
    requires b != []
    ensures var n, p := (|b| + 2) / 3, Pretty(b);
            && |p| == 4 * n + (n + 15) / 16
            && BrokenEvery64(p)
            && WithoutNewlines(p) == Plain(b)
  {
    hide Plain, BrokenEvery64, WithoutNewlines;
    NothingButNewline();
    if |b| <= 48 {
      PlainHasNoNewline(b);
      WithoutNewlinesConcat(Plain(b), [NEWLINE]);
      OneLine(Plain(b));
    } else {
      var line, rest := Plain(b[..48]), Pretty(b[48..]);
      PlainHasNoNewline(b[..48]);
      PrettyLayout(b[48..]);
      WithoutNewlinesConcat(line, [NEWLINE]);
      WithoutNewlinesConcat(line + [NEWLINE], rest);
      assert b == b[..48] + b[48..];
      PlainConcat(b[..48], b[48..]);
      LineAbove(line, rest);
    }
  }

  predicate BrokenEvery64(p: seq<byte>) {
    forall j :: 0 <= j < |p| ==> (p[j] == NEWLINE <==> j % 65 == 64 || j == |p| - 1)
  }

  lemma OneLine(line: seq<byte>)
    requires |line| <= 64 && NEWLINE !in line
    ensures BrokenEvery64(line + [NEWLINE])
  {
    var p := line + [NEWLINE];
    assert forall j :: 0 <= j < |line| ==> p[j] == line[j];
  }

  lemma LineAbove(line: seq<byte>, rest: seq<byte>)
    requires |line| == 64 && NEWLINE !in line && rest != [] && BrokenEvery64(rest)
    ensures BrokenEvery64(line + [NEWLINE] + rest)
  {
    var p := line + [NEWLINE] + rest;
    forall j | 0 <= j < |p|
      ensures p[j] == NEWLINE <==> j % 65 == 64 || j == |p| - 1
    {
      if j < 64 {
        assert p[j] == line[j];
      } else if j > 64 {
        assert p[j] == rest[j - 65];
        assert j % 65 == (j - 65) % 65;
      }
    }
  }

  lemma NothingButNewline()
    ensures WithoutNewlines([NEWLINE]) == []
  {
    assert [NEWLINE][1..] == [];
  }

  // ----- fixed texts

  lemma ThreeBytes(x: byte, y: byte, z: byte)
    ensures Plain([x, y, z]) == Group(x, y, z)
  {
    hide Group;
    PlainEmpty();
    assert [x, y, z][3..] == [];
  }

  lemma FewBytes(b: seq<byte>)
    requires 1 <= |b| <= 2
    ensures Plain(b) == Tail(b)
  {
    hide Tail;
  }

  lemma Quads()
    ensures Group(102, 111, 111) == [90, 109, 57, 118]
    ensures Group(98, 97, 114) == [89, 109, 70, 121]
    ensures Tail([102]) == [90, 103, 61, 61]
    ensures Tail([0xfb, 0xff]) == [43, 47, 56, 61]
  {
  }

  /** In ASCII codes: "f" is written as "Zg==" and "foobar" as "Zm9vYmFy", from section 10 of RFC 4648; and two bytes that
      use the last two characters of the alphabet are written as "+/8=". */
  lemma TestVectors()
    ensures Plain([102]) == [90, 103, 61, 61]
    ensures Plain([102, 111, 111, 98, 97, 114]) == [90, 109, 57, 118, 89, 109, 70, 121]
    ensures Plain([0xfb, 0xff]) == [43, 47, 56, 61]
  {
    hide Plain, Group, Tail;
    Quads();
    FewBytes([102]);
    FewBytes([0xfb, 0xff]);
    ThreeBytes(102, 111, 111);
    ThreeBytes(98, 97, 114);
    assert [102, 111, 111] + [98, 97, 114] == [102, 111, 111, 98, 97, 114];
    PlainConcat([102, 111, 111], [98, 97, 114]);
  }
}
