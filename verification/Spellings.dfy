/** Every way to write a JSON string (section 7 of RFC 8259), and that the request reader
    (internal/server/requestfast.go) takes exactly those. */
module Spellings {
  import opened Values
  import opened Json

  /** A character as it stands, a short escape, a number escape, or a surrogate pair of them. */
  datatype Spelling =
    | Char(r: nat)
    | Short(e: byte)
    | Unit(r: nat, h: Bytes)
    | Pair(r: nat, h: Bytes, l: Bytes)

  /** What the short escapes stand for. */
  const SHORT: map<byte, byte> :=
    map[0x22 := 0x22, 0x5C := 0x5C, 0x2F := 0x2F, 0x62 := 0x08, 0x66 := 0x0C, 0x6E := 0x0A, 0x72 := 0x0D, 0x74 := 0x09]

  function UpperHex(d: nat): byte
    requires d < 16
  {
    if d < 10 then 0x30 + d else 0x41 + d - 10
  }

  predicate Digit16(c: byte, d: nat)
    requires d < 16
  {
    c == LowerHex(d) || c == UpperHex(d)
  }

  /** Four hexadecimal digits of a number, each in either case. */
  predicate Hex4(h: Bytes, r: nat) {
    && |h| == 4 && r < 0x1_0000
    && Digit16(h[0], r / 0x1000) && Digit16(h[1], r / 0x100 % 16) && Digit16(h[2], r / 16 % 16) && Digit16(h[3], r % 16)
  }

  predicate Good(p: Spelling) {
    match p
    case Char(r) => Scalar(r) && r >= 0x20 && r != 0x22 && r != 0x5C
    case Short(e) => e in SHORT
    case Unit(r, h) => Scalar(r) && Hex4(h, r)
    case Pair(r, h, l) =>
      && 0x1_0000 <= r <= 0x10_FFFF
      && Hex4(h, 0xD800 + (r - 0x1_0000) / 0x400) && Hex4(l, 0xDC00 + (r - 0x1_0000) % 0x400)
  }

  /** The bytes of a spelling. */
  function Spelled(p: Spelling): (s: Bytes)
    requires Good(p)
    ensures s != []
  {
    match p
    case Char(r) => Utf8(r)
    case Short(e) => [BACKSLASH, e]
    case Unit(_, h) => [BACKSLASH, 0x75] + h
    case Pair(_, h, l) => [BACKSLASH, 0x75] + h + [BACKSLASH, 0x75] + l
  }

  /** The character it stands for, in UTF-8. */
  function Meant(p: Spelling): Bytes
    requires Good(p)
  {
    if p.Short? then [SHORT[p.e]] else Utf8(p.r)
  }

  predicate AllGood(ps: seq<Spelling>) { forall i :: 0 <= i < |ps| ==> Good(ps[i]) }

  function SpelledAll(ps: seq<Spelling>): Bytes
    requires AllGood(ps)
  {
    if ps == [] then [] else Spelled(ps[0]) + SpelledAll(ps[1..])
  }

  function MeantAll(ps: seq<Spelling>): Bytes
    requires AllGood(ps)
  {
    if ps == [] then [] else Meant(ps[0]) + MeantAll(ps[1..])
  }

  // ------------------------------------------------------------ hexadecimal

  lemma HexValueIs(c: byte, d: nat)
    requires d < 16
    ensures HexValue(c) == Some(d) <==> Digit16(c, d)
    ensures HexValue(c).Some? ==> HexValue(c).value < 16
  {
  }

  lemma HexSnoc(h: Bytes)
    requires h != []
    ensures HexNumber(h[..0]) == Some(0)
    ensures HexNumber(h) == match (HexNumber(h[..|h| - 1]), HexValue(h[|h| - 1]))
                            case (Some(n), Some(d)) => Some(n * 16 + d)
                            case _ => None
  {
    hide HexValue;
    assert h[..0] == [];
  }

  lemma HexSplits(h: Bytes)
    requires |h| == 4
    ensures HexNumber(h) ==
            match (HexValue(h[0]), HexValue(h[1]), HexValue(h[2]), HexValue(h[3]))
            case (Some(a), Some(b), Some(c), Some(d)) => Some(((a * 16 + b) * 16 + c) * 16 + d)
            case _ => None
  {
    hide HexValue;
    var x, y, z := h[..3], h[..3][..2], h[..3][..2][..1];
    assert x[2] == h[2] && y[1] == h[1] && z[0] == h[0] && z[..0] == [];
    HexSnoc(z);
    HexSnoc(y);
    HexSnoc(x);
    HexSnoc(h);
  }

  lemma Nibbles(a: nat, b: nat, c: nat, d: nat, r: nat)
    requires a < 16 && b < 16 && c < 16 && d < 16
    ensures r == ((a * 16 + b) * 16 + c) * 16 + d <==>
            r < 0x1_0000 && a == r / 0x1000 && b == r / 0x100 % 16 && c == r / 16 % 16 && d == r % 16
  {
    var q := r / 16;
    var p := q / 16;
    assert r / 0x100 == p && r / 0x1000 == p / 16;
  }

  /** The reader's number is the one whose digits these are. */
  lemma HexIs(h: Bytes, r: nat)
    requires |h| == 4
    ensures HexNumber(h) == Some(r) <==> Hex4(h, r)
  {
    hide HexValue, HexNumber, Digit16;
    HexSplits(h);
    forall i | 0 <= i < 4 ensures HexValue(h[i]).Some? ==> HexValue(h[i]).value < 16 { HexValueIs(h[i], 0); }
    if HexNumber(h).Some? {
      var a, b, c, d := HexValue(h[0]).value, HexValue(h[1]).value, HexValue(h[2]).value, HexValue(h[3]).value;
      Nibbles(a, b, c, d, r);
    }
    if r < 0x1_0000 {
      var a, b, c, d := r / 0x1000, r / 0x100 % 16, r / 16 % 16, r % 16;
      Nibbles(a, b, c, d, r);
      HexValueIs(h[0], a);
      HexValueIs(h[1], b);
      HexValueIs(h[2], c);
      HexValueIs(h[3], d);
    }
  }

  // -------------------------------------------------------- spelling to text

  lemma ShortReads(e: byte, rest: Bytes)
    requires e in SHORT
    ensures EscapeAt([BACKSLASH, e] + rest) == Some(Read([SHORT[e]], 2))
  {
    var b := [BACKSLASH, e] + rest;
    assert b[1] == e;
  }

  lemma EscapeSpelled(p: Spelling, rest: Bytes)
    requires Good(p) && !p.Char?
    ensures EscapeAt(Spelled(p) + rest) == Some(Read(Meant(p), |Spelled(p)|))
  {
    hide EscapeAt, HexNumber, Hex4, Utf8;
    match p
    case Short(e) => ShortReads(e, rest);
    case Unit(r, h) =>
      assert |h| == 4 && r < 0x1_0000 by { FourDigits(h, r); }
      HexIs(h, r);
      UnitReads(r, h, rest);
    case Pair(r, h, l) =>
      FourDigits(h, 0xD800 + (r - 0x1_0000) / 0x400);
      FourDigits(l, 0xDC00 + (r - 0x1_0000) % 0x400);
      HexIs(h, 0xD800 + (r - 0x1_0000) / 0x400);
      HexIs(l, 0xDC00 + (r - 0x1_0000) % 0x400);
      PairReads(r, h, l, rest);
  }

  lemma FourDigits(h: Bytes, r: nat)
    requires Hex4(h, r)
    ensures |h| == 4 && r < 0x1_0000
  {
  }

  lemma CharReads(r: nat, rest: Bytes)
    requires Good(Char(r))
    ensures ReadBody(Utf8(r) + rest) == Prepend(Utf8(r), |Utf8(r)|, ReadBody(rest))
  {
    var b, u := Utf8(r) + rest, Utf8(r);
    assert b[|u|..] == rest && b[..|u|] == u && b[0] == u[0];
    if r >= 0x80 {
      Utf8RoundTrip(r, rest);
      assert u[0] >= 0x80;
    }
  }

  lemma PieceSpelled(p: Spelling, rest: Bytes)
    requires Good(p)
    ensures ReadBody(Spelled(p) + rest) == Prepend(Meant(p), |Spelled(p)|, ReadBody(rest))
  {
    if p.Char? {
      CharReads(p.r, rest);
    } else {
      EscapeSpelled(p, rest);
      hide EscapeAt, Good, Meant;
      var s := Spelled(p);
      assert s[0] == BACKSLASH && (s + rest)[0] == BACKSLASH && (s + rest)[|s|..] == rest;
    }
  }

  /** However a string is spelled, the reader gives its characters and stops after the closing quote. */
  lemma {:induction false} SpellingReads(ps: seq<Spelling>, rest: Bytes)
    requires AllGood(ps)
    ensures ReadBody(SpelledAll(ps) + [DQUOTE] + rest) == Some(Read(MeantAll(ps), |SpelledAll(ps)| + 1))
    decreases |ps|
  {
    hide ReadBody, Spelled, Meant, Good;
    if ps == [] {
      assert SpelledAll(ps) + [DQUOTE] + rest == [DQUOTE] + rest;
      QuoteReads(rest);
    } else {
      var s, tail := Spelled(ps[0]), SpelledAll(ps[1..]) + [DQUOTE] + rest;
      assert SpelledAll(ps) + [DQUOTE] + rest == s + tail;
      SpellingReads(ps[1..], rest);
      PieceSpelled(ps[0], tail);
    }
  }

  // -------------------------------------------------------- text to spelling

  /** What the reader takes as an escape is a spelling. */
  lemma EscapeIsSpelling(b: Bytes) returns (p: Spelling)
    requires b != [] && b[0] == BACKSLASH && EscapeAt(b).Some?
    ensures Good(p) && EscapeAt(b).value == Read(Meant(p), |Spelled(p)|)
    ensures |Spelled(p)| <= |b| && b[..|Spelled(p)|] == Spelled(p)
  {
    hide Hex4, HexNumber, Utf8;
    var e := b[1];
    if e != 0x75 {
      p := Short(e);
      assert b[..2] == [BACKSLASH, e];
    } else {
      var r := HexNumber(b[2..6]).value;
      HexIs(b[2..6], r);
      HexBound(b[2..6]);
      if 0xD800 <= r <= 0xDBFF {
        var lo := HexNumber(b[8..12]).value;
        HexIs(b[8..12], lo);
        HexBound(b[8..12]);
        var whole := 0x1_0000 + (r - 0xD800) * 0x400 + (lo - 0xDC00);
        assert (whole - 0x1_0000) / 0x400 == r - 0xD800 && (whole - 0x1_0000) % 0x400 == lo - 0xDC00;
        p := Pair(whole, b[2..6], b[8..12]);
        assert b[..12] == [BACKSLASH, 0x75] + b[2..6] + [BACKSLASH, 0x75] + b[8..12];
      } else {
        p := Unit(r, b[2..6]);
        assert b[..6] == [BACKSLASH, 0x75] + b[2..6];
      }
    }
  }

  lemma CharIsSpelling(b: Bytes) returns (p: Spelling)
    requires b != [] && b[0] >= 0x20 && b[0] != DQUOTE && b[0] != BACKSLASH && (b[0] < 0x80 || Multi(b) > 0)
    ensures Good(p)
    ensures var n := if b[0] < 0x80 then 1 else Multi(b);
            |Spelled(p)| == n && b[..n] == Spelled(p) == Meant(p)
  {
    if b[0] < 0x80 {
      p := Char(b[0]);
      assert b[..1] == [b[0]];
    } else {
      RuneRoundTrip(b);
      p := Char(RuneOf(b));
    }
  }

  lemma FirstSpelling(b: Bytes) returns (p: Spelling)
    requires ReadBody(b).Some? && b != [] && b[0] != DQUOTE
    ensures Good(p) && |Spelled(p)| <= |b| && b[..|Spelled(p)|] == Spelled(p)
    ensures ReadBody(b) == Prepend(Meant(p), |Spelled(p)|, ReadBody(b[|Spelled(p)|..]))
  {
    hide EscapeAt, Multi, Good, Spelled, Meant;
    if b[0] == BACKSLASH {
      p := EscapeIsSpelling(b);
    } else {
      p := CharIsSpelling(b);
      assert b[..1] == [b[0]];
    }
  }

  lemma Joined(b: Bytes, n: nat, m: nat)
    requires n + m <= |b|
    ensures b[..n + m] == b[..n] + b[n..][..m]
  {
  }

  /** And it takes nothing else: what it reads is some spelling of what it gives. */
  lemma {:induction false} OnlySpellings(b: Bytes) returns (ps: seq<Spelling>)
    requires ReadBody(b).Some?
    ensures AllGood(ps)
    ensures var r := ReadBody(b).value;
            r.size <= |b| && b[..r.size] == SpelledAll(ps) + [DQUOTE] && r.text == MeantAll(ps)
    decreases |b|
  {
    hide ReadBody, Good, Spelled, Meant;
    assert b != [] && (b[0] == DQUOTE ==> ReadBody(b).value == Read([], 1)) by { ReadsSomething(b); }
    if b[0] == DQUOTE {
      ps := [];
      assert b[..1] == [DQUOTE];
    } else {
      var p := FirstSpelling(b);
      var n := |Spelled(p)|;
      var rest := OnlySpellings(b[n..]);
      ps := [p] + rest;
      assert ps[1..] == rest && ps[0] == p;
      var size := ReadBody(b[n..]).value.size;
      Joined(b, n, size);
      assert Spelled(p) + (SpelledAll(rest) + [DQUOTE]) == SpelledAll(ps) + [DQUOTE];
    }
  }

  lemma ReadsSomething(b: Bytes)
    requires ReadBody(b).Some?
    ensures b != [] && (b[0] == DQUOTE ==> ReadBody(b).value == Read([], 1))
  {
    hide EscapeAt, Multi;
  }
}
