/** UUID text (section 3 of RFC 4122), as in platform/uuid.cc. */
module Uuid {
  import opened Bits
  import opened Wrappers
  import opened Hex

  datatype ParseError = WrongSize | MissingHyphen | BadDigits

  // ----- the layout of the text

  predicate IsHyphenAt(p: int) {
    p == 8 || p == 13 || p == 18 || p == 23
  }

  /** How many hyphens stand before the text of byte j. */
  function HyphensBefore(j: nat): nat {
    if j < 4 then 0 else if j < 6 then 1 else if j < 8 then 2 else if j < 10 then 3 else 4
  }

  /** Where the two digits of byte j are. */
  function DigitsOf(j: nat): nat {
    2 * j + HyphensBefore(j)
  }

  /** The places of the text are the four hyphens and two digits for each of the sixteen bytes, none of them shared. */
  lemma LayoutIsComplete(p: nat)
    requires p < 36
    ensures IsHyphenAt(p) <==> forall j :: 0 <= j < 16 ==> p != DigitsOf(j) && p != DigitsOf(j) + 1
    ensures forall j, k :: 0 <= j < k < 16 ==> DigitsOf(j) + 1 < DigitsOf(k)
  {
    if !IsHyphenAt(p) {
      var before := if p < 8 then 0 else if p < 13 then 1 else if p < 18 then 2 else if p < 23 then 3 else 4;
      var j := (p - before) / 2;
      assert DigitsOf(j) == p || DigitsOf(j) + 1 == p;
    }
  }

  /** The groups of 8, 4, 4, 4 and 12 digits: where the two digits of each byte stand, and the hyphens between the groups. */
  lemma LayoutIs(j: nat, p: int)
    requires j < 16
    ensures DigitsOf(j) == [0, 2, 4, 6, 9, 11, 14, 16, 19, 21, 24, 26, 28, 30, 32, 34][j]
    ensures IsHyphenAt(p) <==> p in {8, 13, 18, 23}
  {
  }

  predicate GoodAt(s: string, p: nat)
    requires p < |s|
  {
    if IsHyphenAt(p) then s[p] == '-' else IsHexDigit(s[p])
  }

  /** Exactly 36 characters, hyphens in the four places, hexadecimal digits in all others. */
  predicate IsUuidText(s: string) {
    |s| == 36 && forall p :: 0 <= p < 36 ==> GoodAt(s, p)
  }

  function PairValue(s: string, j: nat): byte
    requires IsUuidText(s) && j < 16
  {
    assert GoodAt(s, DigitsOf(j)) && GoodAt(s, DigitsOf(j) + 1);
    16 * DigitValue(s[DigitsOf(j)]) + DigitValue(s[DigitsOf(j) + 1])
  }

  function BytesOf(s: string): (u: seq<byte>)
    requires IsUuidText(s)
    ensures |u| == 16
  {
    seq(16, j requires 0 <= j < 16 => PairValue(s, j))
  }

  // ----- parsing

  lemma PairParses(s: string)
    requires |s| == 2
    ensures Parsed(s).Ok? <==> IsHexDigit(s[0]) && IsHexDigit(s[1])
    ensures Parsed(s).Ok? ==> Parsed(s).value == 16 * DigitValue(s[0]) + DigitValue(s[1])
  {
    hide DigitValue, IsHexDigit;
    if IsHexDigit(s[0]) && IsHexDigit(s[1]) {
      assert AllHex(s);
      assert s[..1] == [s[0]] && s[..1][..0] == [];
      assert Value(s[..1]) == DigitValue(s[0]);
    }
  }

  /** The first place that is not as it should be decides which exception is thrown. */
  ghost predicate FirstBad(s: string, p: nat) {
    p < |s| && !GoodAt(s, p) && forall q :: 0 <= q < p ==> GoodAt(s, q)
  }

  /** Where the loop index stands when byte j is next: at its digits or at the hyphen before them. */
  function LoopIndex(j: nat): nat {
    if j == 4 || j == 6 || j == 8 || j == 10 then DigitsOf(j) - 1 else DigitsOf(j)
  }

  lemma LoopIndexSteps(j: nat)
    requires j <= 16
    ensures if j < 16 then LoopIndex(j) < 36 else LoopIndex(j) == 36
    ensures j < 16 ==>
              && DigitsOf(j) == LoopIndex(j) + (if IsHyphenAt(LoopIndex(j)) then 1 else 0)
              && !IsHyphenAt(DigitsOf(j)) && !IsHyphenAt(DigitsOf(j) + 1)
              && LoopIndex(j + 1) == DigitsOf(j) + 2 <= 36
  {
  }

  predicate GoodBefore(s: string, n: nat) {
    n <= |s| && forall p :: 0 <= p < n ==> GoodAt(s, p)
  }

  /** `from_string`. */
  method FromString(str: string) returns (r: Result<seq<byte>, ParseError>)
    ensures r.Ok? <==> IsUuidText(str)
    ensures r.Ok? ==> r.value == BytesOf(str)
    ensures r == Err(WrongSize) <==> |str| != 36
    ensures r == Err(MissingHyphen) ==> exists p: nat :: FirstBad(str, p) && IsHyphenAt(p)
    ensures r == Err(BadDigits) ==> exists p: nat :: FirstBad(str, p) && !IsHyphenAt(p)
  {
    hide DigitValue, IsHexDigit, Parsed, LoopIndex, DigitsOf, RawPair, IsPairAt;
    hide GoodBefore, GoodAt, IsUuidText, BytesOf, FirstBad, Pow2;
    AllGood(str);
    if |str| != 36 {
      return Err(WrongSize);
    }
    var ret := new byte[16](_ => 0);
    var jj := 0;
    var ii := 0;
    LoopStarts(str);
    while ii < 36
      invariant 0 <= jj <= 16 && ii == LoopIndex(jj)
      invariant GoodBefore(str, ii)
      invariant forall j :: 0 <= j < jj ==> ret[j] == RawPair(str, j)
      decreases 36 - ii
    {
      LoopIndexSteps(jj);
      if ii == 8 || ii == 13 || ii == 18 || ii == 23 {
        if str[ii] != '-' {
          BadHyphen(str, ii);
          return Err(MissingHyphen);
        }
        ii := ii + 1;
      }
      AtPair(str, jj);
      var h := FromHex(str[ii..ii + 2]);
      if h.Err? {
        BadPair(str, jj);
        return Err(BadDigits);
      }
      GoodPair(str, jj, h.value);
      ret[jj] := h.value % 256;
      jj := jj + 1;
      ii := ii + 2;
    }
    LoopIndexSteps(jj);
    RawPairsAreBytes(str, ret[..]);
    return Ok(ret[..]);
  }

  lemma LoopStarts(s: string)
    ensures LoopIndex(0) == 0 && GoodBefore(s, 0)
  {
  }

  lemma AllGood(s: string)
    ensures |s| == 36 && GoodBefore(s, 36) <==> IsUuidText(s)
  {
  }

  lemma AtPair(s: string, j: nat)
    requires |s| == 36 && j < 16 && GoodBefore(s, LoopIndex(j))
    requires LoopIndex(j) < 36 && (IsHyphenAt(LoopIndex(j)) ==> s[LoopIndex(j)] == '-')
    ensures IsPairAt(s, j)
  {
    hide IsHexDigit;
    LoopIndexSteps(j);
    assert IsHyphenAt(LoopIndex(j)) ==> GoodAt(s, LoopIndex(j));
  }

  lemma BadHyphen(s: string, p: nat)
    requires |s| == 36 && p < 36 && IsHyphenAt(p) && GoodBefore(s, p) && s[p] != '-'
    ensures !IsUuidText(s) && FirstBad(s, p)
  {
    assert !GoodAt(s, p);
  }

  /** The parser has come to the digits of byte j and all is well so far. */
  predicate IsPairAt(s: string, j: nat) {
    var p := DigitsOf(j);
    p + 2 <= |s| && GoodBefore(s, p) && !IsHyphenAt(p) && !IsHyphenAt(p + 1)
  }

  lemma GoodPair(s: string, j: nat, v: nat)
    requires |s| == 36 && j < 16 && IsPairAt(s, j)
    requires Parsed(s[DigitsOf(j)..DigitsOf(j) + 2]) == Ok(v)
    ensures v == RawPair(s, j) < 256 && GoodBefore(s, DigitsOf(j) + 2)
  {
    hide DigitValue, IsHexDigit, Parsed, DigitsOf;
    PairParses(s[DigitsOf(j)..DigitsOf(j) + 2]);
  }

  lemma RawPairsAreBytes(s: string, u: seq<byte>)
    requires IsUuidText(s) && |u| == 16
    requires forall j :: 0 <= j < 16 ==> u[j] == RawPair(s, j)
    ensures u == BytesOf(s)
  {
    hide DigitValue, IsHexDigit;
    forall j | 0 <= j < 16
      ensures u[j] == BytesOf(s)[j]
    {
      assert GoodAt(s, DigitsOf(j)) && GoodAt(s, DigitsOf(j) + 1);
    }
  }

  /** The value of the digits of byte j, when they are digits. */
  ghost function RawPair(s: string, j: nat): byte
    requires |s| == 36 && j < 16
  {
    var p := DigitsOf(j);
    if IsHexDigit(s[p]) && IsHexDigit(s[p + 1]) then 16 * DigitValue(s[p]) + DigitValue(s[p + 1]) else 0
  }

  lemma BadPair(s: string, j: nat)
    requires |s| == 36 && j < 16 && IsPairAt(s, j)
    requires Parsed(s[DigitsOf(j)..DigitsOf(j) + 2]).Err?
    ensures !IsUuidText(s) && exists q: nat :: FirstBad(s, q) && !IsHyphenAt(q)
  {
    hide DigitValue, IsHexDigit, Parsed, DigitsOf;
    var p := DigitsOf(j);
    PairParses(s[p..p + 2]);
    if GoodAt(s, p) {
      assert FirstBad(s, p + 1);
    } else {
      assert FirstBad(s, p);
    }
  }

  // ----- printing

  function HyphenAfter(k: nat): string {
    if k == 4 || k == 6 || k == 8 || k == 10 then "-" else ""
  }

  /** The text of the first k bytes, with the hyphen that follows them. */
  function TextOf(u: seq<byte>, k: nat): string
    requires k <= |u|
  {
    if k == 0 then "" else TextOf(u, k - 1) + PrintPadded(u[k - 1], 2) + HyphenAfter(k)
  }

  function UuidText(u: seq<byte>): string
    requires |u| == 16
  {
    TextOf(u, 16)
  }

  /** `to_string`. */
  method ToString(uuid: seq<byte>) returns (s: string)
    requires |uuid| == 16
    ensures s == UuidText(uuid)
  {
    hide PrintPadded;
    s := "";
    var ii := 0;
    for k := 0 to 16
      invariant ii == k
      invariant s == TextOf(uuid, k)
    {
      s := s + PrintPadded(uuid[k], 2);
      ii := ii + 1;
      if ii == 4 || ii == 6 || ii == 8 || ii == 10 {
        s := s + "-";
      }
    }
  }

  lemma BytePrints(x: byte)
    ensures PrintPadded(x, 2) == [HexDigit(x / 16), HexDigit(x % 16)]
  {
    hide HexDigit;
    if x < 16 {
      DigitZero();
      assert Print(x) == [HexDigit(x)];
      assert Zeros(1) == "0";
    } else {
      assert Print(x / 16) == [HexDigit(x / 16)];
    }
  }

  /** One more byte: old places unchanged, two new digits, and a hyphen where one belongs. */
  lemma TextStep(u: seq<byte>, k: nat)
    requires 0 < k <= |u|
    ensures var t, t' := TextOf(u, k - 1), TextOf(u, k);
            && |t'| == |t| + 2 + |HyphenAfter(k)|
            && (forall p :: 0 <= p < |t| ==> t'[p] == t[p])
            && t'[|t|] == HexDigit(u[k - 1] / 16)
            && t'[|t| + 1] == HexDigit(u[k - 1] % 16)
            && (HyphenAfter(k) != "" ==> t'[|t| + 2] == '-')
  {
    hide HexDigit, PrintPadded;
    BytePrints(u[k - 1]);
  }

  lemma {:induction false} TextLength(u: seq<byte>, k: nat)
    requires k <= |u| && k <= 16
    ensures |TextOf(u, k)| == DigitsOf(k)
  {
    hide TextOf, HexDigit;
    if k == 0 {
      TextEmpty(u);
    } else {
      TextLength(u, k - 1);
      TextStep(u, k);
    }
  }

  lemma TextEmpty(u: seq<byte>)
    ensures TextOf(u, 0) == ""
  {
  }

  lemma {:induction false} DigitsAt(u: seq<byte>, k: nat, j: nat)
    requires j < k <= |u| && k <= 16
    ensures DigitsOf(j) + 1 < |TextOf(u, k)|
    ensures TextOf(u, k)[DigitsOf(j)] == HexDigit(u[j] / 16)
    ensures TextOf(u, k)[DigitsOf(j) + 1] == HexDigit(u[j] % 16)
  {
    hide TextOf, HexDigit, HyphenAfter, HyphensBefore;
    TextLength(u, k - 1);
    TextStep(u, k);
    if j < k - 1 {
      DigitsAt(u, k - 1, j);
    }
  }

  lemma {:induction false} HyphensAt(u: seq<byte>, k: nat, p: nat)
    requires k <= |u| && k <= 16 && p < |TextOf(u, k)| && IsHyphenAt(p)
    ensures TextOf(u, k)[p] == '-'
  {
    hide TextOf, HexDigit;
    if k == 0 {
      TextEmpty(u);
    } else {
      TextLength(u, k - 1);
      TextStep(u, k);
      if p < |TextOf(u, k - 1)| {
        HyphensAt(u, k - 1, p);
      }
    }
  }

  /** Every place of the text, as far as it is written. */
  lemma TextAt(u: seq<byte>, k: nat)
    requires k <= |u| && k <= 16
    ensures |TextOf(u, k)| == DigitsOf(k)
    ensures forall j :: 0 <= j < k ==>
              && TextOf(u, k)[DigitsOf(j)] == HexDigit(u[j] / 16)
              && TextOf(u, k)[DigitsOf(j) + 1] == HexDigit(u[j] % 16)
    ensures forall p :: 0 <= p < |TextOf(u, k)| && IsHyphenAt(p) ==> TextOf(u, k)[p] == '-'
  {
    hide TextOf, HexDigit;
    TextLength(u, k);
    forall j | 0 <= j < k
      ensures TextOf(u, k)[DigitsOf(j)] == HexDigit(u[j] / 16)
      ensures TextOf(u, k)[DigitsOf(j) + 1] == HexDigit(u[j] % 16)
    {
      DigitsAt(u, k, j);
    }
    forall p | 0 <= p < |TextOf(u, k)| && IsHyphenAt(p)
      ensures TextOf(u, k)[p] == '-'
    {
      HyphensAt(u, k, p);
    }
  }

  // ----- theorems

  /** Printing yields well-formed text. */
  lemma UuidTextIsWellFormed(u: seq<byte>)
    requires |u| == 16
    ensures IsUuidText(UuidText(u))
  {
    hide HexDigit, IsHexDigit, DigitValue, TextOf;
    TextAt(u, 16);
    var s := UuidText(u);
    forall p | 0 <= p < 36
      ensures GoodAt(s, p)
    {
      if !IsHyphenAt(p) {
        LayoutIsComplete(p);
        var j :| 0 <= j < 16 && (p == DigitsOf(j) || p == DigitsOf(j) + 1);
      }
    }
  }

  /** Parsing what was printed gives back every UUID. */
  lemma UuidRoundTrip(u: seq<byte>)
    requires |u| == 16
    ensures IsUuidText(UuidText(u)) && BytesOf(UuidText(u)) == u
  {
    hide HexDigit, IsHexDigit, DigitValue, TextOf, IsUuidText;
    TextAt(u, 16);
    UuidTextIsWellFormed(u);
    var s := UuidText(u);
    forall j | 0 <= j < 16
      ensures PairValue(s, j) == u[j]
    {
      assert s[DigitsOf(j)] == HexDigit(u[j] / 16);
    }
  }

  function Lower(c: char): char {
    if 'A' <= c <= 'Z' then c - 'A' + 'a' else c
  }

  function LowerCase(s: string): string {
    seq(|s|, i requires 0 <= i < |s| => Lower(s[i]))
  }

  lemma LowerDigit(c: char)
    requires IsHexDigit(c)
    ensures HexDigit(DigitValue(c)) == Lower(c)
  {
  }

  /** Printing what was parsed gives back the text in lower case, so parsing forgets only the case of the digits. */
  lemma UuidTextRoundTrip(s: string)
    requires IsUuidText(s)
    ensures UuidText(BytesOf(s)) == LowerCase(s)
  {
    hide HexDigit, IsHexDigit, DigitValue, TextOf, Lower;
    var u := BytesOf(s);
    var t := UuidText(u);
    TextAt(u, 16);
    forall p | 0 <= p < 36
      ensures t[p] == Lower(s[p])
    {
      assert GoodAt(s, p);
      if IsHyphenAt(p) {
        LowerHyphen();
      } else {
        LayoutIsComplete(p);
        var j :| 0 <= j < 16 && (p == DigitsOf(j) || p == DigitsOf(j) + 1);
        LowerPair(s, j);
      }
    }
  }

  lemma LowerHyphen()
    ensures Lower('-') == '-'
  {
  }

  lemma LowerPair(s: string, j: nat)
    requires IsUuidText(s) && j < 16
    ensures HexDigit(BytesOf(s)[j] / 16) == Lower(s[DigitsOf(j)])
    ensures HexDigit(BytesOf(s)[j] % 16) == Lower(s[DigitsOf(j) + 1])
  {
    hide HexDigit, IsHexDigit, DigitValue, Lower;
    var hi, lo := s[DigitsOf(j)], s[DigitsOf(j) + 1];
    assert GoodAt(s, DigitsOf(j)) && GoodAt(s, DigitsOf(j) + 1);
    LowerDigit(hi);
    LowerDigit(lo);
    ModUnique(16 * DigitValue(hi) + DigitValue(lo), 16, DigitValue(hi), DigitValue(lo));
  }

  // ----- the version of a random UUID

  /** The last two statements of `random`: the version nibble becomes 4 and nothing else changes. */
  method SetVersion(uuid: array<byte>)
    requires uuid.Length == 16
    modifies uuid
    ensures forall i :: 0 <= i < 16 && i != 6 ==> uuid[i] == old(uuid[i])
    ensures uuid[6] / 16 == 4 && uuid[6] % 16 == old(uuid[6]) % 16
  {
    VersionBits(uuid[6]);
    uuid[6] := BitAnd(uuid[6], 0x0f);
    uuid[6] := BitOr(uuid[6], 0x40);
  }

  lemma VersionBits(x: byte)
    ensures BitAnd(x, 0x0f) == x % 16
    ensures BitOr(x % 16, 0x40) == 64 + x % 16
  {
    Pow2Small();
    AndMask(x, 4);
    OrLowHigh(x % 16, 4, 4);
    assert Shl(4, 4) == 0x40;
  }

  /** The version shows as the digit 4 in the place RFC 4122 gives it. */
  lemma VersionIsPrinted(u: seq<byte>)
    requires |u| == 16 && u[6] / 16 == 4
    ensures |UuidText(u)| == 36 && UuidText(u)[14] == '4'
  {
    hide TextOf;
    TextAt(u, 16);
    assert DigitsOf(6) == 14;
  }
}
