/** JSON strings as bytes: the writer of results (internal/engine/marshal.go) and the reader of requests
    (internal/server/requestfast.go), over UTF-8 as section 3 of RFC 3629 defines it. */
module Json {
  import opened Values

  type byte = n: nat | n < 256

  type Bytes = seq<byte>

  const DQUOTE: byte := 0x22
  const BACKSLASH: byte := 0x5C

  // ----------------------------------------------------------------- UTF-8

  predicate Tail(b: byte) { 0x80 <= b <= 0xBF }

  /** The length of the well-formed multi-byte sequence at the start of `s`, or 0. */
  function Multi(s: Bytes): (n: nat)
    ensures n <= |s| && n != 1 && n <= 4
  {
    if |s| >= 2 && 0xC2 <= s[0] <= 0xDF && Tail(s[1]) then 2
    else if |s| >= 3 && Tail(s[2]) && Second3(s[0], s[1]) then 3
    else if |s| >= 4 && Tail(s[2]) && Tail(s[3]) && Second4(s[0], s[1]) then 4
    else 0
  }

  /** No overlong forms and no surrogates. */
  predicate Second3(a: byte, b: byte) {
    (a == 0xE0 && 0xA0 <= b <= 0xBF) || (0xE1 <= a <= 0xEC && Tail(b)) || (a == 0xED && 0x80 <= b <= 0x9F)
      || (0xEE <= a <= 0xEF && Tail(b))
  }

  /** No overlong forms and nothing beyond U+10FFFF. */
  predicate Second4(a: byte, b: byte) {
    (a == 0xF0 && 0x90 <= b <= 0xBF) || (0xF1 <= a <= 0xF3 && Tail(b)) || (a == 0xF4 && 0x80 <= b <= 0x8F)
  }

  /** The payload bits of a byte, its marker taken off. */
  function Bits(b: byte, marker: nat): nat
    requires marker <= b
  {
    b - marker
  }

  /** The character a multi-byte sequence stands for. */
  function RuneOf(s: Bytes): nat
    requires Multi(s) > 0
  {
    if Multi(s) == 2 then Bits(s[0], 0xC0) * 0x40 + Bits(s[1], 0x80)
    else if Multi(s) == 3 then Bits(s[0], 0xE0) * 0x1000 + Bits(s[1], 0x80) * 0x40 + Bits(s[2], 0x80)
    else Bits(s[0], 0xF0) * 0x4_0000 + Bits(s[1], 0x80) * 0x1000 + Bits(s[2], 0x80) * 0x40 + Bits(s[3], 0x80)
  }

  predicate Scalar(r: nat) { r < 0xD800 || 0xE000 <= r <= 0x10_FFFF }

  function Utf8(r: nat): (s: Bytes)
    requires r <= 0x10_FFFF
    ensures 1 <= |s| <= 4
  {
    if r < 0x80 then [r]
    else if r < 0x800 then [0xC0 + r / 0x40, 0x80 + r % 0x40]
    else if r < 0x1_0000 then [0xE0 + r / 0x1000, 0x80 + r / 0x40 % 0x40, 0x80 + r % 0x40]
    else [0xF0 + r / 0x4_0000, 0x80 + r / 0x1000 % 0x40, 0x80 + r / 0x40 % 0x40, 0x80 + r % 0x40]
  }

  /** Every character from U+0080 on has one well-formed sequence, which stands for it. */
  lemma Utf8RoundTrip(r: nat, rest: Bytes)
    requires Scalar(r) && r >= 0x80
    ensures Multi(Utf8(r) + rest) == |Utf8(r)| && RuneOf(Utf8(r) + rest) == r
  {
    if r < 0x800 {
      Two(r, rest);
    } else if r < 0x1_0000 {
      Three(r, rest);
    } else {
      Four(r, rest);
    }
  }

  lemma Two(r: nat, rest: Bytes)
    requires 0x80 <= r < 0x800
    ensures Multi(Utf8(r) + rest) == |Utf8(r)| && RuneOf(Utf8(r) + rest) == r
  {
    var s := Utf8(r) + rest;
    assert s[0] == 0xC0 + r / 0x40 && s[1] == 0x80 + r % 0x40;
  }

  lemma Three(r: nat, rest: Bytes)
    requires 0x800 <= r < 0x1_0000 && Scalar(r)
    ensures Multi(Utf8(r) + rest) == |Utf8(r)| && RuneOf(Utf8(r) + rest) == r
  {
    var s := Utf8(r) + rest;
    var a, b, c := r / 0x1000, r / 0x40 % 0x40, r % 0x40;
    assert s[0] == 0xE0 + a && s[1] == 0x80 + b && s[2] == 0x80 + c;
    Split3(r);
    assert Second3(s[0], s[1]);
    assert Multi(s) == 3;
  }

  lemma Four(r: nat, rest: Bytes)
    requires 0x1_0000 <= r <= 0x10_FFFF
    ensures Multi(Utf8(r) + rest) == |Utf8(r)| && RuneOf(Utf8(r) + rest) == r
  {
    var s := Utf8(r) + rest;
    var a, b, c, d := r / 0x4_0000, r / 0x1000 % 0x40, r / 0x40 % 0x40, r % 0x40;
    assert s[0] == 0xF0 + a && s[1] == 0x80 + b && s[2] == 0x80 + c && s[3] == 0x80 + d;
    Split4(r);
    assert Second4(s[0], s[1]);
    assert Multi(s) == 4;
  }

  lemma Split3(r: nat)
    ensures r == r / 0x1000 * 0x1000 + r / 0x40 % 0x40 * 0x40 + r % 0x40
  {
    var q := r / 0x40;
    assert q / 0x40 == r / 0x1000 && q == q / 0x40 * 0x40 + q % 0x40 && r == q * 0x40 + r % 0x40;
  }

  lemma Split4(r: nat)
    ensures r == r / 0x4_0000 * 0x4_0000 + r / 0x1000 % 0x40 * 0x1000 + r / 0x40 % 0x40 * 0x40 + r % 0x40
  {
    var q := r / 0x1000;
    Split3(r);
    assert q / 0x40 == r / 0x4_0000 && q == q / 0x40 * 0x40 + q % 0x40;
  }

  /** And every well-formed sequence is that of its character. */
  lemma RuneRoundTrip(s: Bytes)
    requires Multi(s) > 0
    ensures Scalar(RuneOf(s)) && RuneOf(s) >= 0x80 && Utf8(RuneOf(s)) == s[..Multi(s)]
  {
    if Multi(s) == 2 { BackTwo(s); } else if Multi(s) == 3 { BackThree(s); } else { BackFour(s); }
  }

  lemma BackTwo(s: Bytes)
    requires Multi(s) == 2
    ensures Scalar(RuneOf(s)) && RuneOf(s) >= 0x80 && Utf8(RuneOf(s)) == s[..2]
  {
    var r := RuneOf(s);
    assert r / 0x40 == Bits(s[0], 0xC0) && r % 0x40 == Bits(s[1], 0x80);
  }

  lemma BackThree(s: Bytes)
    requires Multi(s) == 3
    ensures Scalar(RuneOf(s)) && RuneOf(s) >= 0x80 && Utf8(RuneOf(s)) == s[..3]
  {
    Join3(Bits(s[0], 0xE0), Bits(s[1], 0x80), Bits(s[2], 0x80));
    var r := RuneOf(s);
    assert 0x800 <= r < 0x1_0000 && Scalar(r);
    assert Utf8(r)[0] == s[0] && Utf8(r)[1] == s[1] && Utf8(r)[2] == s[2];
  }

  lemma BackFour(s: Bytes)
    requires Multi(s) == 4
    ensures Scalar(RuneOf(s)) && RuneOf(s) >= 0x80 && Utf8(RuneOf(s)) == s[..4]
  {
    Join4(Bits(s[0], 0xF0), Bits(s[1], 0x80), Bits(s[2], 0x80), Bits(s[3], 0x80));
    var r := RuneOf(s);
    assert 0x1_0000 <= r <= 0x10_FFFF;
    assert Utf8(r)[0] == s[0] && Utf8(r)[1] == s[1] && Utf8(r)[2] == s[2] && Utf8(r)[3] == s[3];
  }

  lemma Join3(a: nat, b: nat, c: nat)
    requires b < 0x40 && c < 0x40
    ensures var r := a * 0x1000 + b * 0x40 + c; r / 0x1000 == a && r / 0x40 % 0x40 == b && r % 0x40 == c
  {
    var r := a * 0x1000 + b * 0x40 + c;
    assert r / 0x40 == a * 0x40 + b;
    assert r == (a * 0x40 + b) * 0x40 + c;
  }

  lemma Join4(a: nat, b: nat, c: nat, d: nat)
    requires b < 0x40 && c < 0x40 && d < 0x40
    ensures var r := a * 0x4_0000 + b * 0x1000 + c * 0x40 + d;
            r / 0x4_0000 == a && r / 0x1000 % 0x40 == b && r / 0x40 % 0x40 == c && r % 0x40 == d
  {
    var r := a * 0x4_0000 + b * 0x1000 + c * 0x40 + d;
    Join3(a * 0x40 + b, c, d);
    assert r / 0x1000 == a * 0x40 + b;
    assert r / 0x4_0000 == a;
  }

  // ---------------------------------------------------------------- writing

  const FFFD: Bytes := [0xEF, 0xBF, 0xBD]

  function LowerHex(d: nat): byte
    requires d < 16
  {
    if d < 10 then 0x30 + d else 0x61 + d - 10
  }

  /** How far the writer goes in one step: one byte, or a whole well-formed sequence. */
  function Advance(s: Bytes): (n: nat)
    requires s != []
    ensures 1 <= n <= |s|
  {
    if s[0] < 0x80 || Multi(s) == 0 then 1 else Multi(s)
  }

  function EscapeU(c: byte): Bytes { [BACKSLASH, 0x75, 0x30, 0x30, LowerHex(c / 16), LowerHex(c % 16)] }

  /** What one step writes. Line and paragraph separators are not escaped. */
  function Piece(s: Bytes): Bytes
    requires s != []
  {
    var c := s[0];
    if c == DQUOTE || c == BACKSLASH then [BACKSLASH, c]
    else if c == 0x0A then [BACKSLASH, 0x6E]
    else if c == 0x0D then [BACKSLASH, 0x72]
    else if c == 0x09 then [BACKSLASH, 0x74]
    else if c == 0x3C || c == 0x3E || c == 0x26 || c < 0x20 then EscapeU(c)
    else if c < 0x80 then [c]
    else if Multi(s) == 0 then FFFD
    else s[..Multi(s)]
  }

  function Body(s: Bytes): Bytes {
    if s == [] then [] else Piece(s) + Body(s[Advance(s)..])
  }

  function Quoted(s: Bytes): Bytes { [DQUOTE] + Body(s) + [DQUOTE] }

  /** The text with every byte that is not part of a well-formed sequence replaced by U+FFFD. */
  function Sanitize(s: Bytes): Bytes {
    if s == [] then []
    else (if s[0] >= 0x80 && Multi(s) == 0 then FFFD else s[..Advance(s)]) + Sanitize(s[Advance(s)..])
  }

  predicate ValidUtf8(s: Bytes) {
    s == [] || ((s[0] < 0x80 || Multi(s) > 0) && ValidUtf8(s[Advance(s)..]))
  }

  /** Valid text is kept, and only valid text is. */
  lemma {:induction false} SanitizeIff(s: Bytes)
    ensures |Sanitize(s)| >= |s| && (Sanitize(s) == s <==> ValidUtf8(s))
  {
    hide Multi;
    if s != [] {
      var n := Advance(s);
      SanitizeIff(s[n..]);
      assert s == s[..n] + s[n..];
      var first := if s[0] >= 0x80 && Multi(s) == 0 then FFFD else s[..n];
      if Sanitize(s) == s && |first| == n {
        assert Sanitize(s[n..]) == Sanitize(s)[n..] == s[n..];
      }
    }
  }

  method AppendJSONString(out: Bytes, s: Bytes) returns (res: Bytes)
    ensures res == out + Quoted(s)
  {
    hide Multi, Piece, Advance;
    res := out + [DQUOTE];
    var i := 0;
    assert s[0..] == s;
    while i < |s|
      invariant i <= |s| && res + Body(s[i..]) == out + [DQUOTE] + Body(s)
      decreases |s| - i
    {
      ghost var piece, rest := Piece(s[i..]), Body(s[i + Advance(s[i..])..]);
      assert s[i..][Advance(s[i..])..] == s[i + Advance(s[i..])..];
      assert res + piece + rest == res + (piece + rest);
      var n;
      res, n := AppendOne(res, s, i);
      i := i + n;
    }
    assert Body(s[i..]) == [] && res + [] == res;
    res := res + [DQUOTE];
    assert res == out + ([DQUOTE] + Body(s) + [DQUOTE]);
  }

  /** One step of the writer. */
  method AppendOne(out: Bytes, s: Bytes, i: nat) returns (res: Bytes, n: nat)
    requires i < |s|
    ensures res == out + Piece(s[i..]) && n == Advance(s[i..])
  {
    hide Multi;
    var c := s[i];
    n := 1;
    if c == DQUOTE {
      res := out + [BACKSLASH, DQUOTE];
    } else if c == BACKSLASH {
      res := out + [BACKSLASH, BACKSLASH];
    } else if c == 0x0A {
      res := out + [BACKSLASH, 0x6E];
    } else if c == 0x0D {
      res := out + [BACKSLASH, 0x72];
    } else if c == 0x09 {
      res := out + [BACKSLASH, 0x74];
    } else if c == 0x3C {
      res := out + [BACKSLASH, 0x75, 0x30, 0x30, 0x33, 0x63];
    } else if c == 0x3E {
      res := out + [BACKSLASH, 0x75, 0x30, 0x30, 0x33, 0x65];
    } else if c == 0x26 {
      res := out + [BACKSLASH, 0x75, 0x30, 0x30, 0x32, 0x36];
    } else if c < 0x20 {
      res := out + [BACKSLASH, 0x75, 0x30, 0x30, LowerHex(c / 16), LowerHex(c % 16)];
    } else if c < 0x80 {
      res := out + [c];
    } else if Multi(s[i..]) == 0 {
      res := out + FFFD;
    } else {
      n := Multi(s[i..]);
      res := out + s[i..i + n];
      assert s[i..i + n] == s[i..][..n];
    }
  }

  /** What may stand in a page: no control characters, no angle brackets, no ampersand. */
  predicate PageSafe(b: byte) { b >= 0x20 && b != 0x3C && b != 0x3E && b != 0x26 }

  lemma PieceSafe(s: Bytes)
    requires s != []
    ensures forall i :: 0 <= i < |Piece(s)| ==> PageSafe(Piece(s)[i])
  {
    if s[0] >= 0x80 && Multi(s) > 0 { assert forall i :: 0 <= i < Multi(s) ==> s[i] >= 0x80; }
  }

  /** Whatever the text, what is written has nothing in it that could end a line or open a tag. */
  lemma {:induction false} WrittenSafe(s: Bytes)
    ensures forall i :: 0 <= i < |Quoted(s)| ==> PageSafe(Quoted(s)[i])
  {
    BodySafe(s);
  }

  lemma {:induction false} BodySafe(s: Bytes)
    ensures forall i :: 0 <= i < |Body(s)| ==> PageSafe(Body(s)[i])
    decreases |s|
  {
    hide Piece, PageSafe, Advance;
    if s != [] {
      PieceSafe(s);
      BodySafe(s[Advance(s)..]);
    }
  }

  // ---------------------------------------------------------------- reading

  datatype Read = Read(text: Bytes, size: nat)

  function HexValue(c: byte): Option<nat> {
    if 0x30 <= c <= 0x39 then Some(c - 0x30)
    else if 0x61 <= c <= 0x66 then Some(c - 0x61 + 10)
    else if 0x41 <= c <= 0x46 then Some(c - 0x41 + 10)
    else None
  }

  /** The number written in hexadecimal. */
  function HexNumber(s: Bytes): Option<nat> {
    if s == [] then Some(0)
    else match (HexNumber(s[..|s| - 1]), HexValue(s[|s| - 1]))
      case (Some(n), Some(d)) => Some(n * 16 + d)
      case _ => None
  }

  lemma {:induction false} HexBound(s: Bytes)
    requires HexNumber(s).Some?
    ensures |s| <= 4 ==> HexNumber(s).value < 0x1_0000
    ensures |s| <= 3 ==> HexNumber(s).value < 0x1000
    ensures |s| <= 2 ==> HexNumber(s).value < 0x100
    ensures |s| <= 1 ==> HexNumber(s).value < 0x10
  {
    if s != [] { HexBound(s[..|s| - 1]); }
  }

  method DecodeU(b: Bytes, i: nat) returns (r: Option<nat>)
    ensures r == (if i + 4 > |b| then None else HexNumber(b[i..i + 4]))
    ensures r.Some? ==> r.value < 0x1_0000
  {
    if i + 4 > |b| {
      return None;
    }
    var n := 0;
    for j := 0 to 4
      invariant HexNumber(b[i..i + j]) == Some(n)
    {
      assert b[i..i + j + 1][..j] == b[i..i + j];
      match HexValue(b[i + j]) {
        case None =>
          HexFails(b[i..i + 4], j + 1);
          return None;
        case Some(d) =>
          n := n * 16 + d;
      }
    }
    HexBound(b[i..i + 4]);
    return Some(n);
  }

  lemma {:induction false} HexFails(s: Bytes, j: nat)
    requires j <= |s| && HexNumber(s[..j]) == None
    ensures HexNumber(s) == None
    decreases |s|
  {
    if j < |s| {
      assert s[..|s| - 1][..j] == s[..j];
      HexFails(s[..|s| - 1], j);
    } else {
      assert s[..j] == s;
    }
  }

  /** Writes the UTF-8 form into a buffer. */
  method EncodeRune(buf: array<byte>, r: nat) returns (n: nat)
    requires buf.Length >= 4 && r <= 0x10_FFFF
    modifies buf
    ensures n == |Utf8(r)| && buf[..n] == Utf8(r)
  {
    if r < 0x80 {
      buf[0] := r;
      return 1;
    }
    if r < 0x800 {
      buf[0], buf[1] := 0xC0 + r / 0x40, 0x80 + r % 0x40;
      return 2;
    }
    if r < 0x1_0000 {
      buf[0], buf[1], buf[2] := 0xE0 + r / 0x1000, 0x80 + r / 0x40 % 0x40, 0x80 + r % 0x40;
      return 3;
    }
    buf[0], buf[1], buf[2], buf[3] := 0xF0 + r / 0x4_0000, 0x80 + r / 0x1000 % 0x40, 0x80 + r / 0x40 % 0x40,
      0x80 + r % 0x40;
    return 4;
  }

  /** The escape at the start of `b`: the bytes it stands for, and its length. */
  function EscapeAt(b: Bytes): Option<Read> {
    if |b| < 2 then None
    else
      var e := b[1];
      if e == DQUOTE || e == BACKSLASH || e == 0x2F then Some(Read([e], 2))
      else if e == 0x62 then Some(Read([0x08], 2))
      else if e == 0x66 then Some(Read([0x0C], 2))
      else if e == 0x6E then Some(Read([0x0A], 2))
      else if e == 0x72 then Some(Read([0x0D], 2))
      else if e == 0x74 then Some(Read([0x09], 2))
      else if e == 0x75 then UnicodeAt(b)
      else None
  }

  /** A number escape, or a pair of them for a character beyond U+FFFF. */
  function UnicodeAt(b: Bytes): Option<Read> {
    if |b| < 6 then None
    else match HexNumber(b[2..6])
      case None => None
      case Some(r) =>
        HexBound(b[2..6]);
        if 0xD800 <= r <= 0xDBFF && |b| >= 12 && b[6] == BACKSLASH && b[7] == 0x75 then
          (match HexNumber(b[8..12])
           case None => None
           case Some(lo) =>
             if lo < 0xDC00 || lo > 0xDFFF then None
             else Some(Read(Utf8(0x1_0000 + (r - 0xD800) * 0x400 + (lo - 0xDC00)), 12)))
        else if 0xD800 <= r <= 0xDFFF then None
        else Some(Read(Utf8(r), 6))
  }

  /** The text up to the closing quote, and how many bytes that takes with the quote. */
  function ReadBody(b: Bytes): Option<Read> {
    if b == [] then None
    else if b[0] == DQUOTE then Some(Read([], 1))
    else if b[0] == BACKSLASH then
      match EscapeAt(b)
      case None => None
      case Some(e) => if e.size == 0 || e.size > |b| then None else Prepend(e.text, e.size, ReadBody(b[e.size..]))
    else if b[0] < 0x20 then None
    else if b[0] < 0x80 then Prepend([b[0]], 1, ReadBody(b[1..]))
    else if Multi(b) == 0 then None
    else Prepend(b[..Multi(b)], Multi(b), ReadBody(b[Multi(b)..]))
  }

  function Prepend(text: Bytes, size: nat, rest: Option<Read>): Option<Read> {
    match rest case None => None case Some(r) => Some(Read(text + r.text, size + r.size))
  }

  lemma EscapeSize(b: Bytes)
    requires EscapeAt(b).Some?
    ensures 0 < EscapeAt(b).value.size <= |b|
  {
    hide HexNumber, Utf8;
  }

  lemma PrependTwice(a: Bytes, m: nat, b: Bytes, n: nat, rest: Option<Read>)
    ensures Prepend(a, m, Prepend(b, n, rest)) == Prepend(a + b, m + n, rest)
  {
    if rest.Some? { assert a + (b + rest.value.text) == a + b + rest.value.text; }
  }

  // ----------------------------------------------- reading what was written

  /** The bytes of one step come back from its piece. */
  lemma PieceReads(s: Bytes, rest: Bytes)
    requires s != []
    ensures var kept := if s[0] >= 0x80 && Multi(s) == 0 then FFFD else s[..Advance(s)];
            ReadBody(Piece(s) + rest) == Prepend(kept, |Piece(s)|, ReadBody(rest))
  {
    var c, p := s[0], Piece(s);
    var b := p + rest;
    assert b[|p|..] == rest;
    if c >= 0x80 {
      MultiPrefix(s, rest);
      assert b[..|p|] == p;
    } else if p[0] == BACKSLASH {
      EscapeReads(c, rest);
      assert s[..1] == [c];
    } else {
      assert s[..1] == [c];
    }
  }

  lemma MultiPrefix(s: Bytes, rest: Bytes)
    requires s != [] && s[0] >= 0x80
    ensures Multi(s) > 0 ==> Multi(s[..Multi(s)] + rest) == Multi(s) && s[..Multi(s)][0] == s[0]
    ensures Multi(FFFD + rest) == 3
  {
    var t := FFFD + rest;
    assert t[0] == 0xEF && t[1] == 0xBF && t[2] == 0xBD;
  }

  /** Every escape the writer makes stands for the byte it was made from. */
  lemma EscapeReads(c: byte, rest: Bytes)
    requires c < 0x80 && Piece([c])[0] == BACKSLASH
    ensures EscapeAt(Piece([c]) + rest) == Some(Read([c], |Piece([c])|))
  {
    var b := Piece([c]) + rest;
    if |Piece([c])| == 6 {
      var d := b[2..6];
      assert d == [0x30, 0x30, LowerHex(c / 16), LowerHex(c % 16)];
      HexOfByte(c);
    }
  }

  lemma HexOfByte(c: byte)
    requires c < 0x80
    ensures HexNumber([0x30, 0x30, LowerHex(c / 16), LowerHex(c % 16)]) == Some(c)
  {
    var h, l := LowerHex(c / 16), LowerHex(c % 16);
    var d: Bytes := [0x30, 0x30, h, l];
    assert d[..3] == [0x30, 0x30, h] && d[..3][..2] == [0x30, 0x30] && d[..3][..2][..1] == [0x30]
           && d[..3][..2][..1][..0] == [];
    assert HexNumber(d[..3][..2][..1]) == Some(0) && HexNumber(d[..3][..2]) == Some(0);
    assert HexNumber(d[..3]) == Some(c / 16);
  }

  /** Whatever the bytes, the reader takes back all that the writer wrote, and returns them sanitized. */
  lemma {:induction false} BodyReads(s: Bytes, rest: Bytes)
    ensures ReadBody(Body(s) + [DQUOTE] + rest) == Some(Read(Sanitize(s), |Body(s)| + 1))
    decreases |s|
  {
    hide Multi, Piece, Advance, ReadBody;
    if s == [] {
      assert Body(s) + [DQUOTE] + rest == [DQUOTE] + rest;
      QuoteReads(rest);
    } else {
      var p, tail := Piece(s), s[Advance(s)..];
      assert Body(s) + [DQUOTE] + rest == p + (Body(tail) + [DQUOTE] + rest);
      BodyReads(tail, rest);
      PieceReads(s, Body(tail) + [DQUOTE] + rest);
    }
  }

  lemma QuoteReads(rest: Bytes)
    ensures ReadBody([DQUOTE] + rest) == Some(Read([], 1))
  {
  }

  /** A string read from the opening quote on. */
  function ReadString(b: Bytes): Option<Read> {
    if b != [] && b[0] == DQUOTE then Prepend([], 1, ReadBody(b[1..])) else None
  }

  /** Reading what was written consumes exactly that and gives the text back, exactly when it is valid
      UTF-8; any other bytes come back with U+FFFD for what was not. */
  lemma StringRoundTrip(s: Bytes, rest: Bytes)
    ensures ReadString(Quoted(s) + rest) == Some(Read(Sanitize(s), |Quoted(s)|))
    ensures ReadString(Quoted(s) + rest) == Some(Read(s, |Quoted(s)|)) <==> ValidUtf8(s)
  {
    hide ReadBody, Body, Sanitize, ValidUtf8;
    var b := Quoted(s) + rest;
    assert b[1..] == Body(s) + [DQUOTE] + rest;
    BodyReads(s, rest);
    SanitizeIff(s);
    assert [] + Sanitize(s) == Sanitize(s);
  }

  /** A number escape of a character below U+10000 gives its UTF-8 form, hex digits in either case. */
  lemma UnitReads(r: nat, h: Bytes, rest: Bytes)
    requires Scalar(r) && r < 0x1_0000 && |h| == 4 && HexNumber(h) == Some(r)
    ensures EscapeAt([BACKSLASH, 0x75] + h + rest) == Some(Read(Utf8(r), 6))
  {
    hide HexNumber, Utf8;
    var b := [BACKSLASH, 0x75] + h + rest;
    assert b[2..6] == h;
  }

  /** The two number escapes of a surrogate pair give the UTF-8 form of the character it stands for. */
  lemma PairReads(r: nat, h: Bytes, l: Bytes, rest: Bytes)
    requires 0x1_0000 <= r <= 0x10_FFFF && |h| == |l| == 4
    requires HexNumber(h) == Some(0xD800 + (r - 0x1_0000) / 0x400)
             && HexNumber(l) == Some(0xDC00 + (r - 0x1_0000) % 0x400)
    ensures EscapeAt([BACKSLASH, 0x75] + h + [BACKSLASH, 0x75] + l + rest) == Some(Read(Utf8(r), 12))
  {
    hide HexNumber, Utf8;
    var b := [BACKSLASH, 0x75] + h + [BACKSLASH, 0x75] + l + rest;
    assert b[2..6] == h && b[8..12] == l && b[6] == BACKSLASH && b[7] == 0x75;
    assert 0x1_0000 + (r - 0x1_0000) / 0x400 * 0x400 + (r - 0x1_0000) % 0x400 == r;
  }

  /** Half a surrogate pair is refused. */
  lemma LoneSurrogate(r: nat, h: Bytes, rest: Bytes)
    requires 0xD800 <= r <= 0xDFFF && |h| == 4 && HexNumber(h) == Some(r)
    requires |rest| < 6 || rest[0] != BACKSLASH || rest[1] != 0x75
    ensures EscapeAt([BACKSLASH, 0x75] + h + rest) == None
  {
    hide HexNumber, Utf8;
    var b := [BACKSLASH, 0x75] + h + rest;
    assert b[2..6] == h;
    assert |b| >= 12 ==> b[6] == rest[0] && b[7] == rest[1];
  }

  /** The request parser, at a position in its input. */
  class FastParser {
    const b: Bytes
    var pos: nat

    constructor (input: Bytes)
      ensures b == input && pos == 0
    {
      b, pos := input, 0;
    }

    method Consume(c: byte) returns (ok: bool)
      requires pos <= |b|
      modifies this
      ensures pos <= |b| && ok == (old(pos) < |b| && b[old(pos)] == c) && pos == if ok then old(pos) + 1 else old(pos)
    {
      if pos < |b| && b[pos] == c {
        pos := pos + 1;
        return true;
      }
      return false;
    }

    /** The escape at `i`, through a buffer for number escapes. */
    method ReadEscape(i: nat) returns (r: Option<Read>)
      requires i < |b| && b[i] == BACKSLASH
      ensures r == EscapeAt(b[i..])
    {
      hide HexNumber, Utf8;
      if i + 1 >= |b| {
        return None;
      }
      var e := b[i + 1];
      if e == DQUOTE || e == BACKSLASH || e == 0x2F {
        return Some(Read([e], 2));
      }
      if e == 0x62 {
        return Some(Read([0x08], 2));
      }
      if e == 0x66 {
        return Some(Read([0x0C], 2));
      }
      if e == 0x6E {
        return Some(Read([0x0A], 2));
      }
      if e == 0x72 {
        return Some(Read([0x0D], 2));
      }
      if e == 0x74 {
        return Some(Read([0x09], 2));
      }
      if e != 0x75 {
        return None;
      }
      r := ReadUnicode(b, i);
    }

    static method ReadUnicode(b: Bytes, i: nat) returns (r: Option<Read>)
      requires i < |b|
      ensures r == UnicodeAt(b[i..])
    {
      hide HexNumber, Utf8;
      var unit := DecodeU(b, i + 2);
      if i + 6 <= |b| { assert b[i..][2..6] == b[i + 2..i + 6]; }
      if unit.None? {
        return None;
      }
      var c, consumed := unit.value, 6;
      if 0xD800 <= c <= 0xDBFF && i + 12 <= |b| && b[i + 6] == BACKSLASH && b[i + 7] == 0x75 {
        var low := DecodeU(b, i + 8);
        assert b[i..][8..12] == b[i + 8..i + 12];
        if low.None? || low.value < 0xDC00 || low.value > 0xDFFF {
          return None;
        }
        c, consumed := 0x1_0000 + (c - 0xD800) * 0x400 + (low.value - 0xDC00), 12;
      } else if 0xD800 <= c <= 0xDFFF {
        return None;
      }
      var buf := new byte[4];
      var size := EncodeRune(buf, c);
      return Some(Read(buf[..size], consumed));
    }

    /** A whole string: plain bytes are only passed over, and copied from the first escape on. */
    method String() returns (text: Bytes, ok: bool)
      requires pos <= |b|
      modifies this
      ensures pos <= |b|
      ensures var r := ReadString(b[old(pos)..]);
              (ok <==> r.Some?) && (ok ==> text == r.value.text && pos == old(pos) + r.value.size)
    {
      hide ReadBody, Multi, EscapeAt;
      ghost var from := pos;
      var quoted := Consume(DQUOTE);
      if !quoted {
        return [], false;
      }
      var start := pos;
      assert b[from..][1..] == b[start..];
      text := [];
      assert b[start..start] == [];
      PrependNothing(ReadBody(b[start..]));
      while pos < |b|
        invariant start <= pos <= |b| && ReadBody(b[start..]) == Prepend(b[start..pos], pos - start, ReadBody(b[pos..]))
        decreases |b| - pos
      {
        var c := b[pos];
        BodyStep(b, pos);
        if c == DQUOTE {
          text := b[start..pos];
          pos := pos + 1;
          return text, true;
        } else if c == BACKSLASH {
          break;
        } else if c < 0x20 {
          return [], false;
        }
        var size := 1;
        if c >= 0x80 {
          size := Multi(b[pos..]);
          if size == 0 {
            return [], false;
          }
        }
        PrependTwice(b[start..pos], pos - start, b[pos..pos + size], size, ReadBody(b[pos + size..]));
        assert b[start..pos] + b[pos..pos + size] == b[start..pos + size];
        pos := pos + size;
      }
      if pos >= |b| {
        BodyStep(b, pos);
        return [], false;
      }
      text, ok := Copied(start, b[start..pos]);
    }

    /** The copying part. */
    method Copied(start: nat, before: Bytes) returns (text: Bytes, ok: bool)
      requires start <= pos <= |b| && ReadBody(b[start..]) == Prepend(before, pos - start, ReadBody(b[pos..]))
      modifies this
      ensures pos <= |b|
      ensures var r := ReadBody(b[start..]);
              (ok <==> r.Some?) && (ok ==> text == r.value.text && pos == start + r.value.size)
    {
      hide ReadBody, Multi, EscapeAt;
      text := before;
      while pos < |b|
        invariant start <= pos <= |b| && ReadBody(b[start..]) == Prepend(text, pos - start, ReadBody(b[pos..]))
        decreases |b| - pos
      {
        var c := b[pos];
        BodyStep(b, pos);
        var more, size := [c], 1;
        if c == DQUOTE {
          pos := pos + 1;
          return text, true;
        } else if c == BACKSLASH {
          var e := ReadEscape(pos);
          if e.None? {
            return [], false;
          }
          EscapeSize(b[pos..]);
          more, size := e.value.text, e.value.size;
        } else if c < 0x20 {
          return [], false;
        } else if c >= 0x80 {
          size := Multi(b[pos..]);
          if size == 0 {
            return [], false;
          }
          more := b[pos..pos + size];
        }
        PrependTwice(text, pos - start, more, size, ReadBody(b[pos + size..]));
        text, pos := text + more, pos + size;
      }
      BodyStep(b, pos);
      return [], false;
    }
  }

  lemma PrependNothing(r: Option<Read>)
    ensures Prepend([], 0, r) == r
  {
    if r.Some? { assert [] + r.value.text == r.value.text; }
  }

  /** One step of the reader at position `i`. */
  lemma BodyStep(b: Bytes, i: nat)
    requires i <= |b|
    ensures var rest := b[i..];
            && (i == |b| ==> ReadBody(rest) == None)
            && (i < |b| ==>
                  var c := b[i];
                  && (c == DQUOTE ==> ReadBody(rest) == Some(Read([], 1)))
                  && (c == BACKSLASH ==> match EscapeAt(rest) case None => ReadBody(rest) == None
                                         case Some(e) =>
                                           && e.size <= |b| - i
                                           && ReadBody(rest) == Prepend(e.text, e.size, ReadBody(b[i + e.size..])))
                  && (c < 0x20 ==> ReadBody(rest) == None)
                  && (0x20 <= c < 0x80 && c != DQUOTE && c != BACKSLASH ==>
                      ReadBody(rest) == Prepend([c], 1, ReadBody(b[i + 1..])) && [c] == b[i..i + 1])
                  && (c >= 0x80 && Multi(rest) == 0 ==> ReadBody(rest) == None)
                  && (c >= 0x80 && Multi(rest) > 0 ==>
                      ReadBody(rest) == Prepend(b[i..i + Multi(rest)], Multi(rest), ReadBody(b[i + Multi(rest)..]))))
  {
    hide Multi, EscapeAt;
    if i < |b| {
      var rest := b[i..];
      if b[i] == BACKSLASH && EscapeAt(rest).Some? {
        EscapeSize(rest);
        assert rest[EscapeAt(rest).value.size..] == b[i + EscapeAt(rest).value.size..];
      }
      assert rest[1..] == b[i + 1..] && rest[Multi(rest)..] == b[i + Multi(rest)..]
             && rest[..Multi(rest)] == b[i..i + Multi(rest)];
    }
  }
}
