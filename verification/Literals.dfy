/** SQL literals (internal/engine/parser.go): trimming, unquoting and typed parsing. */
module Literals {
  import opened Values

  datatype Result<+T> = Ok(value: T) | Err(error: string)

  const QUOTE: char := '\''

  /** Unicode white space, as strings.TrimSpace removes it. */
  predicate IsSpace(c: char) {
    '\t' <= c <= '\r' || c == ' ' || c == '\U{85}' || c == '\U{A0}' || c == '\U{1680}'
    || '\U{2000}' <= c <= '\U{200A}' || c == '\U{2028}' || c == '\U{2029}' || c == '\U{202F}' || c == '\U{205F}'
      || c == '\U{3000}'
  }

  function TrimLeft(s: string): string {
    if s != "" && IsSpace(s[0]) then TrimLeft(s[1..]) else s
  }

  function TrimRight(s: string): string {
    if s != "" && IsSpace(s[|s| - 1]) then TrimRight(s[..|s| - 1]) else s
  }

  function TrimSpace(s: string): string { TrimRight(TrimLeft(s)) }

  predicate AllSpace(s: string) { forall i :: 0 <= i < |s| ==> IsSpace(s[i]) }

  /** Neither end is white space. */
  predicate Trimmed(s: string) { s == "" || (!IsSpace(s[0]) && !IsSpace(s[|s| - 1])) }

  lemma {:induction false} TrimLeftParts(s: string) returns (k: nat)
    ensures k <= |s| && AllSpace(s[..k]) && TrimLeft(s) == s[k..]
    ensures k < |s| ==> !IsSpace(s[k])
  {
    if s != "" && IsSpace(s[0]) {
      k := TrimLeftParts(s[1..]);
      assert s[..k + 1] == [s[0]] + s[1..][..k];
      k := k + 1;
    } else {
      k := 0;
    }
  }

  lemma {:induction false} TrimRightParts(s: string) returns (k: nat)
    ensures k <= |s| && AllSpace(s[k..]) && TrimRight(s) == s[..k]
    ensures k > 0 ==> !IsSpace(s[k - 1])
  {
    if s != "" && IsSpace(s[|s| - 1]) {
      k := TrimRightParts(s[..|s| - 1]);
      assert s[k..] == s[..|s| - 1][k..] + [s[|s| - 1]];
    } else {
      k := |s|;
    }
  }

  /** Trimming cuts white space off both ends and nothing else. */
  lemma TrimParts(s: string) returns (a: nat, b: nat)
    ensures a <= b <= |s| && AllSpace(s[..a]) && AllSpace(s[b..])
    ensures TrimSpace(s) == s[a..b] && Trimmed(s[a..b])
  {
    a := TrimLeftParts(s);
    var k := TrimRightParts(s[a..]);
    b := a + k;
    assert s[b..] == s[a..][k..] && s[a..b] == s[a..][..k];
  }

  lemma {:induction false} TrimLeftSpace(w: string, s: string)
    requires AllSpace(w)
    ensures TrimLeft(w + s) == TrimLeft(s)
  {
    if w == "" {
      assert w + s == s;
    } else {
      assert (w + s)[1..] == w[1..] + s;
      TrimLeftSpace(w[1..], s);
    }
  }

  lemma {:induction false} TrimRightSpace(s: string, w: string)
    requires AllSpace(w)
    ensures TrimRight(s + w) == TrimRight(s)
  {
    if w == "" {
      assert s + w == s;
    } else {
      assert (s + w)[..|s + w| - 1] == s + w[..|w| - 1];
      TrimRightSpace(s, w[..|w| - 1]);
    }
  }

  lemma TrimTrimmed(s: string)
    requires Trimmed(s)
    ensures TrimSpace(s) == s
  {
  }

  /** White space added at either end does not matter. */
  lemma TrimIgnoresEnds(w: string, s: string, x: string)
    requires AllSpace(w) && AllSpace(x)
    ensures TrimSpace(w + s + x) == TrimSpace(s)
  {
    assert w + s + x == w + (s + x);
    TrimLeftSpace(w, s + x);
    var k := TrimLeftParts(s);
    assert s == s[..k] + s[k..];
    if k == |s| {
      TrimLeftSpace(s, x);
      TrimLeftSpace(x, "");
      assert x + "" == x;
    } else {
      assert s + x == s[..k] + (s[k..] + x);
      TrimLeftSpace(s[..k], s[k..] + x);
      TrimRightSpace(s[k..], x);
    }
  }

  lemma TrimIdempotent(s: string)
    ensures TrimSpace(TrimSpace(s)) == TrimSpace(s)
  {
    var a, b := TrimParts(s);
    TrimTrimmed(s[a..b]);
  }

  // ----------------------------------------------------------------- quoting

  /** Every quote doubled. */
  function Escape(s: string): string {
    if s == "" then "" else (if s[0] == QUOTE then [QUOTE, QUOTE] else [s[0]]) + Escape(s[1..])
  }

  /** Doubled quotes collapsed from the left, as strings.ReplaceAll does. */
  function Collapse(s: string): string {
    if s == "" then ""
    else if |s| >= 2 && s[0] == QUOTE && s[1] == QUOTE then [QUOTE] + Collapse(s[2..])
    else [s[0]] + Collapse(s[1..])
  }

  lemma {:induction false} CollapseEscape(s: string)
    ensures Collapse(Escape(s)) == s
  {
    if s != "" {
      CollapseEscape(s[1..]);
      if s[0] == QUOTE {
        assert Escape(s)[2..] == Escape(s[1..]);
      } else {
        assert Escape(s)[1..] == Escape(s[1..]);
      }
      assert s == [s[0]] + s[1..];
    }
  }

  function StripLeft(s: string): string {
    if s != "" && s[0] == QUOTE then StripLeft(s[1..]) else s
  }

  function StripRight(s: string): string {
    if s != "" && s[|s| - 1] == QUOTE then StripRight(s[..|s| - 1]) else s
  }

  predicate Quoted(s: string) { |s| >= 2 && s[0] == QUOTE && s[|s| - 1] == QUOTE }

  function UnquoteLiteral(raw: string): string {
    var s := TrimSpace(raw);
    if Quoted(s) then Collapse(s[1..|s| - 1]) else StripRight(StripLeft(s))
  }

  function Quote(s: string): string { [QUOTE] + Escape(s) + [QUOTE] }

  lemma UnquoteQuote(s: string)
    ensures TrimSpace(Quote(s)) == Quote(s)
    ensures UnquoteLiteral(Quote(s)) == s
  {
    TrimTrimmed(Quote(s));
    assert Quote(s)[1..|Quote(s)| - 1] == Escape(s);
    CollapseEscape(s);
  }

  // ----------------------------------------------------------- typed literals

  function Upper(c: char): char {
    if 'a' <= c <= 'z' then c - 'a' + 'A' else c
  }

  /** Case-insensitive equality with the ASCII word NULL. */
  predicate IsNullWord(s: string) {
    |s| == 4 && Upper(s[0]) == 'N' && Upper(s[1]) == 'U' && Upper(s[2]) == 'L' && Upper(s[3]) == 'L'
  }

  function ParseBool(s: string): Option<bool> {
    if s == "1" || s == "t" || s == "T" || s == "true" || s == "TRUE" || s == "True" then Some(true)
    else if s == "0" || s == "f" || s == "F" || s == "false" || s == "FALSE" || s == "False" then Some(false)
    else None
  }

  function ParseVal(raw: string, typ: Type): Result<Value> {
    var s := TrimSpace(raw);
    if IsNullWord(s) then Ok(Null)
    else match typ
      case TextType => Ok(Text(UnquoteLiteral(s)))
      case IntType => (match ParseInt(s) case Some(n) => Ok(Int(n)) case None => Err("parse int: " + s))
      case BoolType => (match ParseBool(s) case Some(b) => Ok(Bool(b)) case None => Err("parse bool: " + s))
  }

  // ------------------------------------------------------------ which texts

  predicate AllDigits(s: string) { s != "" && forall i :: 0 <= i < |s| ==> IsDigit(s[i]) }

  lemma {:induction false} DigitsParse(s: string)
    ensures ParseDigits(s).Some? <==> AllDigits(s)
    decreases |s|
  {
    if |s| > 1 {
      DigitsParse(s[..|s| - 1]);
      assert forall i :: 0 <= i < |s| - 1 ==> s[..|s| - 1][i] == s[i];
    }
  }

  /** Zeros in front do not count. */
  lemma {:induction false} LeadingZero(s: string)
    requires AllDigits(s)
    ensures ParseDigits("0" + s) == ParseDigits(s)
    decreases |s|
  {
    DigitsParse(s);
    var n := |s| - 1;
    assert ("0" + s)[..|s|] == "0" + s[..n];
    if n > 0 { LeadingZero(s[..n]); }
  }

  function Number(s: string): int
    requires AllDigits(s)
  {
    DigitsParse(s);
    ParseDigits(s).value
  }

  /** An integer is written as digits, with a sign in front or not, within 64 bits, and not in any other way. */
  lemma IntTexts(s: string, n: int)
    ensures ParseInt(s) == Some(n) <==>
            && InRange(n)
            && (|| (AllDigits(s) && n == Number(s))
                || (s != "" && s[0] == '+' && AllDigits(s[1..]) && n == Number(s[1..]))
                || (s != "" && s[0] == '-' && AllDigits(s[1..]) && n == -Number(s[1..])))
  {
    hide ParseDigits;
    DigitsParse(s);
    if s != "" { DigitsParse(s[1..]); }
  }

  const TRUES := {"1", "t", "T", "true", "TRUE", "True"}
  const FALSES := {"0", "f", "F", "false", "FALSE", "False"}

  lemma BoolTexts(s: string)
    ensures ParseBool(s) == Some(true) <==> s in TRUES
    ensures ParseBool(s) == Some(false) <==> s in FALSES
  {
    assert ['1'] == "1" && "1" != "0" && "t" != "f" && "T" != "F";
    assert |"true"| == 4 && |"TRUE"| == 4 && |"True"| == 4 && |"false"| == 5 && |"FALSE"| == 5 && |"False"| == 5;
  }

  /** NULL is written in any mix of cases, and in no other way. */
  lemma NullTexts(raw: string, typ: Type)
    ensures ParseVal(raw, typ) == Ok(Null) <==>
            var s := TrimSpace(raw);
            |s| == 4 && s[0] in {'N', 'n'} && s[1] in {'U', 'u'} && s[2] in {'L', 'l'} && s[3] in {'L', 'l'}
  {
    hide TrimSpace, UnquoteLiteral, ParseInt, ParseBool;
  }

  function Quotes(n: nat): string { if n == 0 then "" else Quotes(n - 1) + [QUOTE] }

  lemma {:induction false} QuotesFront(n: nat)
    requires n > 0
    ensures Quotes(n) == [QUOTE] + Quotes(n - 1)
  {
    if n > 1 { QuotesFront(n - 1); }
  }

  lemma StripRightOne(s: string)
    ensures StripRight(s + [QUOTE]) == StripRight(s)
  {
    assert (s + [QUOTE])[..|s|] == s;
  }

  lemma {:induction false} StripRightQuotes(s: string, b: nat)
    requires s != "" && s[|s| - 1] != QUOTE
    ensures StripRight(s + Quotes(b)) == s
  {
    if b == 0 {
      assert s + Quotes(b) == s;
    } else {
      hide StripRight;
      StripRightQuotes(s, b - 1);
      assert s + Quotes(b) == s + Quotes(b - 1) + [QUOTE];
      StripRightOne(s + Quotes(b - 1));
    }
  }

  lemma {:induction false} StripLeftQuotes(a: nat, s: string)
    requires s != "" && s[0] != QUOTE
    ensures StripLeft(Quotes(a) + s) == s
  {
    if a == 0 {
      assert Quotes(a) + s == s;
    } else {
      QuotesFront(a);
      StripLeftQuotes(a - 1, s);
      assert (Quotes(a) + s)[1..] == Quotes(a - 1) + s;
    }
  }

  /** A text that is not quoted on both sides loses the quotes it has on one, and stands for the rest. */
  lemma HalfQuoted(a: nat, s: string, b: nat)
    requires s != "" && s[0] != QUOTE && s[|s| - 1] != QUOTE && (a == 0 || b == 0) && Trimmed(s)
    ensures UnquoteLiteral(Quotes(a) + s + Quotes(b)) == s
  {
    hide Quotes, Collapse, StripLeft, StripRight, TrimSpace;
    var raw := Quotes(a) + s + Quotes(b);
    HalfEnds(a, s, b);
    TrimTrimmed(raw);
    if a == 0 {
      NoQuotes();
      assert raw == s + Quotes(b);
      StripLeftQuotes(0, raw);
      assert Quotes(0) + raw == raw;
      StripRightQuotes(s, b);
    } else {
      NoQuotes();
      assert raw == Quotes(a) + s;
      StripLeftQuotes(a, s);
      assert s + Quotes(0) == s;
      StripRightQuotes(s, 0);
    }
  }

  lemma NoQuotes()
    ensures Quotes(0) == ""
  {
  }

  lemma HalfEnds(a: nat, s: string, b: nat)
    requires s != ""
    ensures var raw := Quotes(a) + s + Quotes(b);
            && raw != "" && raw[0] == (if a > 0 then QUOTE else s[0])
            && raw[|raw| - 1] == if b > 0 then QUOTE else s[|s| - 1]
  {
    hide Quotes;
    QuoteEnds(a);
    QuoteEnds(b);
  }

  lemma {:induction false} QuoteEnds(n: nat)
    ensures |Quotes(n)| == n && forall i :: 0 <= i < n ==> Quotes(n)[i] == QUOTE
  {
    if n > 0 { QuoteEnds(n - 1); }
  }

  /** A literal keeps its value when white space around it is dropped first. */
  lemma ParseValTrims(raw: string, typ: Type)
    ensures ParseVal(TrimSpace(raw), typ) == ParseVal(raw, typ)
  {
    TrimIdempotent(raw);
  }

  /** A WHERE literal: the unquoted text if it parses for the column, else that text itself. */
  function LiteralValue(raw: string, typ: Type): Value {
    var s := UnquoteLiteral(raw);
    match ParseVal(s, typ)
    case Ok(v) => v
    case Err(_) => Text(s)
  }
}
