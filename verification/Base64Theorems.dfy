/** What the Base64 codec guarantees: round trips, the canonical form, the language the decoder
    accepts, and what the decoder forgets. */
module Base64Theorems {
  import opened Bits
  import opened Wrappers
  import opened Base64

  // ----- quads

  /** Cutting 24 bits into sextets and joining them again, and the other way round. */
  lemma BytesRejoin(x: byte, y: byte, z: byte)
    ensures var b, c := x % 4 * 16 + y / 16, y % 16 * 4 + z / 64;
            && x / 4 * 4 + b / 16 == x
            && b % 16 * 16 + c / 4 == y
            && c % 4 * 64 + z % 64 == z
  {
    ModUnique(x % 4 * 16 + y / 16, 16, x % 4, y / 16);
    ModUnique(y % 16 * 4 + z / 64, 4, y % 16, z / 64);
  }

  lemma SextetsRejoin(a: nat, b: nat, c: nat, d: nat)
    requires a < 64 && b < 64 && c < 64 && d < 64
    ensures var x, y, z := a * 4 + b / 16, b % 16 * 16 + c / 4, c % 4 * 64 + d;
            && x < 256 && y < 256 && z < 256
            && x / 4 == a && x % 4 == b / 16
            && x % 4 * 16 + y / 16 == b && y / 16 == b % 16
            && y % 16 * 4 + z / 64 == c && y % 16 == c / 4
            && z % 64 == d
  {
    ModUnique(a * 4 + b / 16, 4, a, b / 16);
    ModUnique(b % 16 * 16 + c / 4, 16, b % 16, c / 4);
    ModUnique(c % 4 * 64 + d, 64, c % 4, d);
  }

  lemma GroupDecodes(x: byte, y: byte, z: byte)
    ensures DecodeQuad(Group(x, y, z)) == Ok([x, y, z])
    ensures !IsSpace(Group(x, y, z)[0])
  {
    hide Code, Val, IsSymbol;
    BytesRejoin(x, y, z);
    SymbolIsNotSpace(Code(x / 4));
    SymbolsDecode(x / 4, x % 4 * 16 + y / 16, y % 16 * 4 + z / 64, z % 64);
  }

  lemma SymbolsDecode(a: nat, b: nat, c: nat, d: nat)
    requires a < 64 && b < 64 && c < 64 && d < 64
    ensures DecodeQuad([Code(a), Code(b), Code(c), Code(d)]) == Ok([a * 4 + b / 16, b % 16 * 16 + c / 4, c % 4 * 64 + d])
  {
    hide Code, Val, IsSymbol;
    SymbolIsNotPad(Code(c));
    SymbolIsNotPad(Code(d));
  }

  lemma TailDecodes(b: seq<byte>)
    requires 1 <= |b| <= 2
    ensures DecodeQuad(Tail(b)) == Ok(b)
    ensures !IsSpace(Tail(b)[0])
  {
    hide Code, Val, IsSymbol;
    SymbolIsNotSpace(Tail(b)[0]);
    BytesRejoin(b[0], if |b| == 2 then b[1] else 0, 0);
    if |b| == 2 {
      SymbolIsNotPad(Tail(b)[2]);
      assert b == [b[0], b[1]];
    } else {
      assert b == [b[0]];
    }
  }

  lemma SymbolIsNotSpace(c: byte)
    requires IsSymbol(c)
    ensures !IsSpace(c)
  {
  }

  lemma SymbolIsNotPad(c: byte)
    requires IsSymbol(c)
    ensures c != PAD
  {
  }

  lemma PadIsNotSymbol()
    ensures !IsSymbol(PAD)
  {
  }

  /** Two quads decode to the same bytes exactly when they have the same kind and agree on the bits
      the decoder keeps: it forgets the low four bits of the second character of a one-byte quad,
      whatever stands in fourth place there, and the low two bits of the third character of a two-byte quad. */
  lemma QuadsDecodeAlike(p: seq<byte>, q: seq<byte>)
    requires |p| == |q| == 4 && DecodeQuad(p).Ok? && DecodeQuad(q).Ok?
    ensures DecodeQuad(p) == DecodeQuad(q) <==>
            && p[0] == q[0]
            && match |DecodeQuad(p).value| {
                 case 1 => q[2] == PAD && Val(p[1]) / 16 == Val(q[1]) / 16
                 case 2 => p[1] == q[1] && q[2] != PAD && q[3] == PAD && Val(p[2]) / 4 == Val(q[2]) / 4
                 case _ => p == q
               }
  {
    hide Code, Val, IsSymbol;
    QuadFacts(p);
    QuadFacts(q);
    if DecodeQuad(p) == DecodeQuad(q) {
      var n, b := |DecodeQuad(p).value|, DecodeQuad(p).value;
      assert p[0] == Code(b[0] / 4) == q[0];
      if n >= 2 { assert p[1] == Code(b[0] % 4 * 16 + b[1] / 16) == q[1]; }
      if n == 3 { assert p[2] == Code(b[1] % 16 * 4 + b[2] / 64) == q[2] && p[3] == Code(b[2] % 64) == q[3]; }
    }
  }

  /** What the bytes of a quad say about its characters. */
  lemma QuadFacts(q: seq<byte>)
    requires |q| == 4 && DecodeQuad(q).Ok?
    ensures var b := DecodeQuad(q).value;
            && (|b| == 1 <==> q[2] == PAD)
            && (|b| == 2 <==> q[2] != PAD && q[3] == PAD)
            && q[0] == Code(b[0] / 4)
            && b[0] % 4 == Val(q[1]) / 16
            && (|b| >= 2 ==> q[1] == Code(b[0] % 4 * 16 + b[1] / 16) && b[1] % 16 == Val(q[2]) / 4)
            && (|b| == 3 ==> q[2] == Code(b[1] % 16 * 4 + b[2] / 64) && q[3] == Code(b[2] % 64))
  {
    hide Code, Val, IsSymbol;
    var c := if q[2] == PAD then 0 else Val(q[2]);
    var d := if q[2] == PAD || q[3] == PAD then 0 else Val(q[3]);
    SextetsRejoin(Val(q[0]), Val(q[1]), c, d);
    CodeOfVal(q[0]);
    CodeOfVal(q[1]);
    if q[2] != PAD {
      CodeOfVal(q[2]);
      if q[3] != PAD { CodeOfVal(q[3]); }
    }
  }

  // ----- decoding is a homomorphism

  /** Text after an accepted prefix is decoded as if it stood alone. */
  lemma {:induction false} DecodeHomomorphism(a: seq<byte>, b: seq<byte>)
    requires Decode(a).Ok?
    ensures Decode(a + b) == Append(Decode(a), Decode(b))
    decreases |a|
  {
    hide DecodeQuad;
    if a == [] {
      assert a + b == b;
      AppendEmpty(Decode(b));
    } else if IsSpace(a[0]) {
      assert (a + b)[1..] == a[1..] + b;
      DecodeHomomorphism(a[1..], b);
    } else {
      assert (a + b)[..4] == a[..4];
      assert (a + b)[4..] == a[4..] + b;
      DecodeHomomorphism(a[4..], b);
      AppendAssociative(DecodeQuad(a[..4]), Decode(a[4..]), Decode(b));
    }
  }

  predicate AllSpace(w: seq<byte>) {
    forall i :: 0 <= i < |w| ==> IsSpace(w[i])
  }

  lemma {:induction false} SpaceDecodes(w: seq<byte>)
    requires AllSpace(w)
    ensures Decode(w) == Ok([])
  {
    if w != [] { SpaceDecodes(w[1..]); }
  }

  /** White space inserted at a quad boundary does not change the outcome, exceptions included. */
  lemma SpaceBetweenQuads(a: seq<byte>, w: seq<byte>, b: seq<byte>)
    requires Decode(a).Ok? && AllSpace(w)
    ensures Decode(a + w + b) == Decode(a + b)
  {
    hide Decode;
    assert a + w + b == a + (w + b);
    SpaceDecodes(w);
    DecodeHomomorphism(a, w + b);
    DecodeHomomorphism(w, b);
    DecodeHomomorphism(a, b);
    AppendEmpty(Decode(b));
  }

  // ----- round trips

  lemma {:induction false} PlainRoundTrip(b: seq<byte>)
    ensures Decode(Plain(b)) == Ok(b)
  {
    hide Group, Tail, DecodeQuad;
    if b == [] {
    } else if |b| < 3 {
      TailDecodes(b);
      assert Tail(b)[..4] == Tail(b) && Tail(b)[4..] == [];
      AppendEmpty(Ok(b));
    } else {
      GroupDecodes(b[0], b[1], b[2]);
      PlainRoundTrip(b[3..]);
      var g := Group(b[0], b[1], b[2]);
      assert (g + Plain(b[3..]))[..4] == g && (g + Plain(b[3..]))[4..] == Plain(b[3..]);
      assert b == [b[0], b[1], b[2]] + b[3..];
    }
  }

  lemma NewlineDecodes()
    ensures Decode([NEWLINE]) == Ok([])
  {
    assert [NEWLINE][1..] == [];
  }

  /** The line breaks do not disturb decoding. */
  lemma {:induction false} PrettyRoundTrip(b: seq<byte>)
    ensures Decode(Pretty(b)) == Ok(b)
  {
    hide Decode, Plain;
    NewlineDecodes();
    if b == [] {
      PlainRoundTrip(b);
      assert Plain(b) == [];
    } else if |b| <= 48 {
      PlainRoundTrip(b);
      DecodeHomomorphism(Plain(b), [NEWLINE]);
      AppendEmpty(Ok(b));
    } else {
      PlainRoundTrip(b[..48]);
      PrettyRoundTrip(b[48..]);
      DecodeHomomorphism(Plain(b[..48]), [NEWLINE]);
      AppendEmpty(Ok(b[..48]));
      DecodeHomomorphism(Plain(b[..48]) + [NEWLINE], Pretty(b[48..]));
      assert b == b[..48] + b[48..];
    }
  }

  // ----- the canonical form

  /** Sections 3.5 and 4 of RFC 4648: whole quads of alphabet characters, padding only at the very end,
      and zero bits where the final quad has bits to spare. */
  predicate Canonical(s: seq<byte>) {
    && |s| % 4 == 0
    && (s != [] ==>
          && (forall i :: 0 <= i < |s| - 2 ==> IsSymbol(s[i]))
          && CanonicalEnd(s[|s| - 3], s[|s| - 2], s[|s| - 1]))
  }

  predicate CanonicalEnd(x: byte, y: byte, z: byte)
    requires IsSymbol(x)
  {
    || (IsSymbol(y) && IsSymbol(z))
    || (IsSymbol(y) && z == PAD && Val(y) % 4 == 0)
    || (y == PAD && z == PAD && Val(x) % 16 == 0)
  }

  lemma TailCanonical(b: seq<byte>)
    requires 1 <= |b| <= 2
    ensures Canonical(Tail(b))
  {
    hide Code, Val, IsSymbol;
  }

  lemma {:induction false} PlainCanonical(b: seq<byte>)
    ensures Canonical(Plain(b))
  {
    hide Canonical, Group, Tail;
    if b == [] {
      FullQuads([], []);
      assert Plain(b) == [] + [];
    } else if |b| < 3 {
      TailCanonical(b);
    } else {
      PlainCanonical(b[3..]);
      GroupSymbols(b[0], b[1], b[2]);
      FullQuads(Group(b[0], b[1], b[2]), Plain(b[3..]));
    }
  }

  /** A quad of alphabet characters, or none, may stand before a canonical text. */
  lemma FullQuads(g: seq<byte>, rest: seq<byte>)
    requires |g| % 4 == 0 && forall i :: 0 <= i < |g| ==> IsSymbol(g[i])
    requires Canonical(rest) || rest == []
    ensures Canonical(g + rest)
  {
    hide Val, IsSymbol;
    if rest != [] {
      forall i | 0 <= i < |g + rest| - 2
        ensures IsSymbol((g + rest)[i])
      {
        assert (g + rest)[i] == if i < |g| then g[i] else rest[i - |g|];
      }
    }
  }

  lemma GroupSymbols(x: byte, y: byte, z: byte)
    ensures forall i :: 0 <= i < 4 ==> IsSymbol(Group(x, y, z)[i])
  {
    hide Code, Val, IsSymbol;
  }

  /** A canonical final quad is re-encoded as it was. */
  lemma QuadReencodes(q: seq<byte>)
    requires |q| == 4 && Canonical(q)
    ensures DecodeQuad(q).Ok? && Plain(DecodeQuad(q).value) == q
  {
    hide Code, Val, IsSymbol;
    CodeOfVal(q[0]);
    CodeOfVal(q[1]);
    PadIsNotSymbol();
    var b := DecodeQuad(q).value;
    if q[2] == PAD {
      SextetsRejoin(Val(q[0]), Val(q[1]), 0, 0);
      assert Plain(b) == Tail(b) == [q[0], q[1], PAD, PAD];
    } else {
      CodeOfVal(q[2]);
      if q[3] == PAD {
        SextetsRejoin(Val(q[0]), Val(q[1]), Val(q[2]), 0);
        assert Plain(b) == Tail(b) == [q[0], q[1], q[2], PAD];
      } else {
        CodeOfVal(q[3]);
        SextetsRejoin(Val(q[0]), Val(q[1]), Val(q[2]), Val(q[3]));
        assert Plain(b[3..]) == [];
        assert Plain(b) == Group(b[0], b[1], b[2]) == [q[0], q[1], q[2], q[3]];
      }
    }
  }

  lemma {:induction false} CanonicalReencodes(s: seq<byte>)
    requires Canonical(s)
    ensures Decode(s).Ok? && Plain(Decode(s).value) == s
  {
    hide Group, Tail, Val, IsSymbol, CanonicalEnd, DecodeQuad, Plain;
    if s == [] {
      PlainRoundTrip([]);
      assert Plain([]) == [];
    } else {
      var q, rest := s[..4], s[4..];
      assert s == q + rest;
      SymbolIsNotSpace(s[0]);
      if rest == [] {
        assert q == s;
        QuadReencodes(s);
        AppendEmpty(DecodeQuad(s));
      } else {
        assert CanonicalEnd(rest[|rest| - 3], rest[|rest| - 2], rest[|rest| - 1]);
        CanonicalReencodes(rest);
        FullQuad(q);
        QuadReencodes(q);
        PlainConcat(DecodeQuad(q).value, Decode(rest).value);
      }
    }
  }

  lemma FullQuad(q: seq<byte>)
    requires |q| == 4 && forall i :: 0 <= i < 4 ==> IsSymbol(q[i])
    ensures Canonical(q) && DecodeQuad(q).Ok? && |DecodeQuad(q).value| == 3
  {
    hide Val, IsSymbol;
    SymbolIsNotPad(q[2]);
    SymbolIsNotPad(q[3]);
  }

  /** Decoding and encoding again gives back exactly the canonical texts; they are the image of the encoder. */
  lemma CanonicalForm(s: seq<byte>)
    ensures Decode(s).Ok? && Plain(Decode(s).value) == s <==> Canonical(s)
    ensures Canonical(s) <==> exists b :: Plain(b) == s
  {
    hide Decode, Plain, Canonical;
    if Canonical(s) {
      CanonicalReencodes(s);
    }
    forall b | Plain(b) == s
      ensures Canonical(s)
    {
      PlainCanonical(b);
    }
  }

  // ----- the accepted language

  /** The units of the input language: a white-space character or a quad. */
  datatype Piece = Space(c: byte) | Quad(c0: byte, c1: byte, c2: byte, c3: byte) {
    predicate Valid() {
      match this
      case Space(c) => IsSpace(c)
      case Quad(c0, c1, c2, c3) =>
        && IsSymbol(c0)
        && IsSymbol(c1)
        && (|| c2 == PAD
            || (IsSymbol(c2) && c3 == PAD)
            || (IsSymbol(c2) && IsSymbol(c3)))
    }

    function Text(): seq<byte> {
      match this
      case Space(c) => [c]
      case Quad(c0, c1, c2, c3) => [c0, c1, c2, c3]
    }

    /** The bytes a valid unit stands for, read off the concatenated six-bit values. */
    function Bytes(): seq<byte>
      requires Valid()
    {
      match this
      case Space(_) => []
      case Quad(c0, c1, c2, c3) =>
        var x := Val(c0) * 4 + Val(c1) / 16;
        if c2 == PAD then [x]
        else
          var y := Val(c1) % 16 * 16 + Val(c2) / 4;
          if c3 == PAD then [x, y] else [x, y, Val(c2) % 4 * 64 + Val(c3)]
    }
  }

  predicate AllValid(ps: seq<Piece>) {
    forall i :: 0 <= i < |ps| ==> ps[i].Valid()
  }

  function Text(ps: seq<Piece>): seq<byte> {
    if ps == [] then [] else ps[0].Text() + Text(ps[1..])
  }

  function Bytes(ps: seq<Piece>): seq<byte>
    requires AllValid(ps)
  {
    if ps == [] then [] else ps[0].Bytes() + Bytes(ps[1..])
  }

  lemma PieceDecodes(p: Piece)
    ensures p.Space? && p.Valid() ==> Decode(p.Text()) == Ok([])
    ensures p.Quad? && p.Valid() ==> Decode(p.Text()) == Ok(p.Bytes())
  {
    hide Val, IsSymbol;
    var t := p.Text();
    if p.Valid() {
      if p.Space? {
        assert t[1..] == [];
      } else {
        assert t[..4] == t && t[4..] == [];
        AppendEmpty(DecodeQuad(t));
        SymbolIsNotSpace(p.c0);
        if p.c2 != PAD { SymbolIsNotPad(p.c2); }
      }
    }
  }

  lemma {:induction false} PiecesDecode(ps: seq<Piece>)
    requires AllValid(ps)
    ensures Decode(Text(ps)) == Ok(Bytes(ps))
  {
    hide Decode, DecodeQuad;
    if ps == [] {
      PlainRoundTrip([]);
      assert Plain([]) == [];
    } else {
      PieceDecodes(ps[0]);
      PiecesDecode(ps[1..]);
      DecodeHomomorphism(ps[0].Text(), Text(ps[1..]));
    }
  }

  /** The units of an accepted text. */
  lemma {:induction false} AcceptedParses(s: seq<byte>) returns (ps: seq<Piece>)
    requires Decode(s).Ok?
    ensures AllValid(ps) && Text(ps) == s
  {
    hide Val, IsSymbol;
    if s == [] {
      ps := [];
    } else {
      var p, n := if IsSpace(s[0]) then Space(s[0]) else Quad(s[0], s[1], s[2], s[3]), if IsSpace(s[0]) then 1 else 4;
      var rest := AcceptedParses(s[n..]);
      ps := [p] + rest;
      assert p.Text() == s[..n];
      assert ps[1..] == rest;
    }
  }

  /** `decode` succeeds exactly on sequences of valid units, and yields the concatenation of their bytes. */
  lemma Acceptance(s: seq<byte>)
    ensures Decode(s).Ok? <==> exists ps :: AllValid(ps) && Text(ps) == s
    ensures forall ps :: AllValid(ps) && Text(ps) == s ==> Decode(s) == Ok(Bytes(ps))
  {
    hide Decode, Text, Bytes;
    if Decode(s).Ok? {
      var ps := AcceptedParses(s);
    }
    forall ps | AllValid(ps) && Text(ps) == s
      ensures Decode(s) == Ok(Bytes(ps))
    {
      PiecesDecode(ps);
    }
  }

  // ----- what is refused, and why

  /** What stands where decoding stops: fewer than four characters, or four that are no valid quad. */
  predicate Truncated(rest: seq<byte>) {
    0 < |rest| < 4 && !IsSpace(rest[0])
  }

  predicate Malformed(rest: seq<byte>) {
    |rest| >= 4 && !IsSpace(rest[0]) && !Quad(rest[0], rest[1], rest[2], rest[3]).Valid()
  }

  ghost predicate StopsAt(s: seq<byte>, ps: seq<Piece>, rest: seq<byte>) {
    AllValid(ps) && s == Text(ps) + rest
  }

  lemma StopDecodes(rest: seq<byte>)
    ensures Truncated(rest) ==> Decode(rest) == Err(TruncatedQuad)
    ensures Malformed(rest) ==> Decode(rest) == Err(InvalidCharacter)
  {
    hide Val, IsSymbol;
    if Malformed(rest) {
      var q := rest[..4];
      assert DecodeQuad(q) == Err(InvalidCharacter);
    }
  }

  lemma {:induction false} RejectedStops(s: seq<byte>) returns (ps: seq<Piece>, rest: seq<byte>)
    requires Decode(s).Err?
    ensures StopsAt(s, ps, rest) && (Truncated(rest) || Malformed(rest))
  {
    hide Val, IsSymbol, DecodeQuad;
    if IsSpace(s[0]) {
      ps, rest := RejectedStops(s[1..]);
      ps := PieceBefore(Space(s[0]), s, ps, rest);
    } else if |s| < 4 {
      ps, rest := [], s;
    } else {
      var q := Quad(s[0], s[1], s[2], s[3]);
      if q.Valid() {
        ValidQuadDecodes(s);
        ps, rest := RejectedStops(s[4..]);
        ps := PieceBefore(q, s, ps, rest);
      } else {
        ps, rest := [], s;
      }
    }
  }

  lemma ValidQuadDecodes(s: seq<byte>)
    requires |s| >= 4 && Quad(s[0], s[1], s[2], s[3]).Valid()
    ensures DecodeQuad(s[..4]).Ok?
  {
    hide Val, IsSymbol;
  }

  lemma PieceBefore(p: Piece, s: seq<byte>, ps: seq<Piece>, rest: seq<byte>) returns (all: seq<Piece>)
    requires p.Valid() && p.Text() <= s && StopsAt(s[|p.Text()|..], ps, rest)
    ensures StopsAt(s, all, rest)
  {
    all := [p] + ps;
    assert all[1..] == ps;
    assert s == p.Text() + s[|p.Text()|..];
    assert p.Text() + (Text(ps) + rest) == p.Text() + Text(ps) + rest;
  }

  /** `decode` throws for a text cut short exactly when, after valid units, one to three characters are left that do not
      begin with white space, and for a bad character exactly when the next four are no valid quad. */
  lemma Rejection(s: seq<byte>)
    ensures Decode(s) == Err(TruncatedQuad) <==> exists ps, rest :: StopsAt(s, ps, rest) && Truncated(rest)
    ensures Decode(s) == Err(InvalidCharacter) <==> exists ps, rest :: StopsAt(s, ps, rest) && Malformed(rest)
    ensures Decode(s).Err? ==> Decode(s).error.TruncatedQuad? || Decode(s).error.InvalidCharacter?
  {
    hide Decode, Text, Bytes, Truncated, Malformed, AllValid;
    forall ps, rest | StopsAt(s, ps, rest)
      ensures Truncated(rest) ==> Decode(s) == Err(TruncatedQuad)
      ensures Malformed(rest) ==> Decode(s) == Err(InvalidCharacter)
    {
      PiecesDecode(ps);
      DecodeHomomorphism(Text(ps), rest);
      StopDecodes(rest);
    }
    if Decode(s).Err? {
      var ps, rest := RejectedStops(s);
    }
  }
}
