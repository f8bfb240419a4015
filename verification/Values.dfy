/** Row values and columns (internal/engine/types.go), their canonical renderings
    (schema.go, valueKey) and their order (select.go, valueLess). FLOAT is not modelled. */
module Values {
  import opened Lex

  datatype Option<+T> = None | Some(value: T)

  datatype Value = Null | Int(n: int) | Text(s: string) | Bool(b: bool)

  datatype Type = IntType | TextType | BoolType

  datatype Column = Column(name: string, typ: Type, primary: bool)

  /** A stored row; a column that is not there reads as NULL. */
  type Row = map<string, Value>

  function Get(row: Row, column: string): Value {
    if column in row then row[column] else Null
  }

  /** The values a column of type `t` can hold. */
  predicate HasType(v: Value, t: Type) {
    match v
    case Null => true
    case Int(_) => t.IntType?
    case Text(_) => t.TextType?
    case Bool(_) => t.BoolType?
  }

  // ---------------------------------------------------------------- integers

  predicate IsDigit(c: char) { '0' <= c <= '9' }

  function Digit(d: nat): (c: char)
    requires d < 10
    ensures IsDigit(c)
  {
    '0' + d as char
  }

  function DigitValue(c: char): (d: nat)
    requires IsDigit(c)
    ensures d < 10
  {
    (c - '0') as nat
  }

  function Digits(n: nat): (s: string)
    ensures |s| > 0 && forall i :: 0 <= i < |s| ==> IsDigit(s[i])
  {
    if n < 10 then [Digit(n)] else Digits(n / 10) + [Digit(n % 10)]
  }

  function ParseDigits(s: string): Option<nat> {
    if s == "" || !IsDigit(s[|s| - 1]) then None
    else if |s| == 1 then Some(DigitValue(s[0]))
    else match ParseDigits(s[..|s| - 1])
      case None => None
      case Some(n) => Some(10 * n + DigitValue(s[|s| - 1]))
  }

  lemma {:induction false} DigitsRoundTrip(n: nat)
    ensures ParseDigits(Digits(n)) == Some(n)
  {
    if n >= 10 {
      DigitsRoundTrip(n / 10);
      assert Digits(n)[..|Digits(n)| - 1] == Digits(n / 10);
    }
  }

  function FormatInt(n: int): string {
    if n < 0 then "-" + Digits(-n) else Digits(n)
  }

  const MAX_INT64 := 0x7FFF_FFFF_FFFF_FFFF

  predicate InRange(n: int) { -MAX_INT64 - 1 <= n <= MAX_INT64 }

  /** Base-10 parsing: an optional sign, then digits only, within 64 bits. */
  function ParseInt(s: string): Option<int> {
    var signed := s != "" && (s[0] == '-' || s[0] == '+');
    match ParseDigits(if signed then s[1..] else s)
    case None => None
    case Some(d) =>
      var m: int := d;
      var n := if signed && s[0] == '-' then -m else m;
      if InRange(n) then Some(n) else None
  }

  lemma IntRoundTrip(n: int)
    requires InRange(n)
    ensures ParseInt(FormatInt(n)) == Some(n)
  {
    DigitsRoundTrip(if n < 0 then -n else n);
    assert n < 0 ==> FormatInt(n)[1..] == Digits(-n);
    assert n >= 0 ==> IsDigit(FormatInt(n)[0]);
  }

  lemma FormatIntInjective(m: int, n: int)
    requires FormatInt(m) == FormatInt(n)
    ensures m == n
  {
    DigitsRoundTrip(if m < 0 then -m else m);
    DigitsRoundTrip(if n < 0 then -n else n);
    assert m < 0 ==> FormatInt(m)[1..] == Digits(-m);
    assert n < 0 ==> FormatInt(n)[1..] == Digits(-n);
    assert m >= 0 ==> IsDigit(FormatInt(m)[0]);
    assert n >= 0 ==> IsDigit(FormatInt(n)[0]);
  }

  // -------------------------------------------------------------- renderings

  function FormatBool(b: bool): string { if b then "true" else "false" }

  /** The rendering used for row keys and index buckets. */
  function ValueKey(v: Value): string {
    match v
    case Null => "NULL"
    case Int(n) => FormatInt(n)
    case Text(s) => s
    case Bool(b) => FormatBool(b)
  }

  /** NULL and the text NULL are the only two values of one column that share a rendering. */
  predicate Confused(a: Value, b: Value) {
    (a == Null && b == Text("NULL")) || (a == Text("NULL") && b == Null)
  }

  lemma KeyInjective(a: Value, b: Value, t: Type)
    requires HasType(a, t) && HasType(b, t)
    ensures ValueKey(a) == ValueKey(b) <==> a == b || Confused(a, b)
  {
    if a.Int? && b.Int? && ValueKey(a) == ValueKey(b) {
      FormatIntInjective(a.n, b.n);
    }
    if a.Int? { assert FormatInt(a.n)[0] == '-' || IsDigit(FormatInt(a.n)[0]); }
    if b.Int? { assert FormatInt(b.n)[0] == '-' || IsDigit(FormatInt(b.n)[0]); }
  }

  // ------------------------------------------------------------------- order

  /** The default formatting that mixed comparisons fall back to. */
  function Sprint(v: Value): string {
    if v.Null? then "<nil>" else ValueKey(v)
  }

  predicate ValueLess(a: Value, b: Value) {
    match (a, b)
    case (Int(m), Int(n)) => m < n
    case (Text(s), Text(t)) => Less(s, t)
    case (Bool(x), Bool(y)) => !x && y
    case _ => Less(Sprint(a), Sprint(b))
  }

  /** At most in plain terms: of integers the numbers, of texts the characters by position, of truth values
      false before true; anything else by its rendering. */
  ghost predicate AtMost(a: Value, b: Value) {
    match (a, b)
    case (Int(m), Int(n)) => m <= n
    case (Bool(x), Bool(y)) => x ==> y
    case (Text(s), Text(t)) => s == t || Earlier(s, t)
    case _ => Sprint(a) == Sprint(b) || Earlier(Sprint(a), Sprint(b))
  }

  /** The order of the code is the plain one, and of any two values one is at most the other. */
  lemma OrderIs(a: Value, b: Value)
    ensures ValueLess(a, b) <==> !AtMost(b, a)
    ensures AtMost(a, b) || AtMost(b, a)
  {
    hide ValueKey;
    var x, y := if a.Text? && b.Text? then a.s else Sprint(a), if a.Text? && b.Text? then b.s else Sprint(b);
    LessIs(y, x);
    LessIs(x, y);
    Trichotomy(x, y);
    Irreflexive(x);
    if Less(x, y) { Asymmetric(x, y); }
  }

  /** Where NULL stands: after every integer, before both booleans, at the text "<nil>". */
  lemma NullRank(v: Value)
    ensures !ValueLess(Null, Null)
    ensures v.Int? ==> ValueLess(v, Null) && !ValueLess(Null, v)
    ensures v.Bool? ==> ValueLess(Null, v) && !ValueLess(v, Null)
    ensures v.Text? ==> ValueLess(v, Null) == Less(v.s, "<nil>") && ValueLess(Null, v) == Less("<nil>", v.s)
  {
    Irreflexive("<nil>");
    if v.Int? {
      assert FormatInt(v.n)[0] == '-' || IsDigit(FormatInt(v.n)[0]);
    }
  }

  /** On one column the order is a strict weak order: it never runs in circles, and values that
      tie compare alike with everything else. */
  lemma ValueOrder(a: Value, b: Value, c: Value, t: Type)
    requires HasType(a, t) && HasType(b, t) && HasType(c, t)
    ensures !(ValueLess(a, b) && ValueLess(b, a))
    ensures ValueLess(a, b) && ValueLess(b, c) ==> ValueLess(a, c)
    ensures ValueLess(a, c) ==> ValueLess(a, b) || ValueLess(b, c)
  {
    NullRank(a);
    NullRank(b);
    NullRank(c);
    if t.TextType? {
      var x, y, z := Sprint(a), Sprint(b), Sprint(c);
      assert ValueLess(a, b) == Less(x, y) && ValueLess(b, a) == Less(y, x);
      assert ValueLess(b, c) == Less(y, z) && ValueLess(a, c) == Less(x, z);
      AtMostTransitive(z, y, x);
      if Less(x, y) {
        Asymmetric(x, y);
        if Less(y, z) { Transitive(x, y, z); }
      }
    }
  }
}
