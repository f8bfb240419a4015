/** The rendering of a projected row that DISTINCT and GROUP BY compare (rowProjectionKey in
    internal/engine/select.go). */
module Projection {
  import opened Values

  function Tag(v: Value): char {
    match v
    case Null => 'n'
    case Int(_) => 'i'
    case Text(_) => 's'
    case Bool(_) => 'b'
  }

  /** One value: its tag, the length of its rendering, and the rendering. */
  function Element(v: Value): string { [Tag(v)] + Digits(|ValueKey(v)|) + ":" + ValueKey(v) }

  function ProjectionKey(row: seq<Value>): string {
    if row == [] then "" else ProjectionKey(row[..|row| - 1]) + Element(row[|row| - 1])
  }

  method RowProjectionKey(row: seq<Value>) returns (key: string)
    ensures key == ProjectionKey(row)
  {
    key := "";
    for i := 0 to |row|
      invariant key == ProjectionKey(row[..i])
    {
      var s := ValueKey(row[i]);
      key := key + ([Tag(row[i])] + Digits(|s|) + ":" + s);
      assert row[..i + 1][..i] == row[..i];
    }
    assert row[..|row|] == row;
  }

  lemma DigitsInjective(m: nat, n: nat)
    requires Digits(m) == Digits(n)
    ensures m == n
  {
    DigitsRoundTrip(m);
    DigitsRoundTrip(n);
  }

  /** Digits end at the colon, whatever follows. */
  lemma SameDigits(m: nat, n: nat, x: string, y: string)
    requires Digits(m) + ":" + x == Digits(n) + ":" + y
    ensures m == n && x == y
  {
    var a, b := Digits(m), Digits(n);
    var s := a + ":" + x;
    assert !IsDigit(s[|a|]) && !IsDigit(s[|b|]);
    assert forall i :: 0 <= i < |a| ==> IsDigit(s[i]) by { assert forall i :: 0 <= i < |a| ==> s[i] == a[i]; }
    assert forall i :: 0 <= i < |b| ==> IsDigit(s[i]) by { assert forall i :: 0 <= i < |b| ==> s[i] == b[i]; }
    assert a == s[..|a|] && b == s[..|b|];
    DigitsInjective(m, n);
    assert x == s[|a| + 1..] && y == s[|b| + 1..];
  }

  lemma SameValue(a: Value, b: Value)
    requires Tag(a) == Tag(b) && ValueKey(a) == ValueKey(b)
    ensures a == b
  {
    hide FormatInt;
    if a.Int? { FormatIntInjective(a.n, b.n); }
  }

  lemma SplitAt(a: string, b: string, x: string, y: string)
    requires a + x == b + y && |a| == |b|
    ensures a == b && x == y
  {
    var u := a + x;
    assert a == u[..|a|] && b == u[..|a|] && x == u[|a|..] && y == u[|a|..];
  }

  /** A rendered value ends where its length says, so what follows cannot be taken for part of it. */
  lemma ElementIs(a: Value, b: Value, x: string, y: string)
    requires Element(a) + x == Element(b) + y
    ensures a == b && x == y
  {
    hide Digits, ValueKey;
    var v, w := ValueKey(a), ValueKey(b);
    assert Element(a) + x == [Tag(a)] + (Digits(|v|) + ":" + (v + x));
    assert Element(b) + y == [Tag(b)] + (Digits(|w|) + ":" + (w + y));
    SplitAt([Tag(a)], [Tag(b)], Digits(|v|) + ":" + (v + x), Digits(|w|) + ":" + (w + y));
    SameDigits(|v|, |w|, v + x, w + y);
    SplitAt(v, w, x, y);
    SameValue(a, b);
  }

  lemma {:induction false} KeyFromFront(row: seq<Value>)
    requires row != []
    ensures ProjectionKey(row) == Element(row[0]) + ProjectionKey(row[1..])
    decreases |row|
  {
    hide Element;
    var n := |row| - 1;
    if n == 0 {
      assert row[..n] == [] && row[1..] == [] && ProjectionKey(row[..n]) == "" && ProjectionKey(row[1..]) == "";
    } else {
      KeyFromFront(row[..n]);
      assert row[..n][1..] == row[1..][..n - 1];
    }
  }

  /** Two projected rows share a key exactly when they are the same row, of any widths. */
  lemma {:induction false} KeyIsRow(a: seq<Value>, b: seq<Value>)
    ensures ProjectionKey(a) == ProjectionKey(b) <==> a == b
    decreases |a|
  {
    hide Element, ProjectionKey;
    if a != [] { KeyFromFront(a); NotEmpty(a[0], ProjectionKey(a[1..])); } else { EmptyKey(); }
    if b != [] { KeyFromFront(b); NotEmpty(b[0], ProjectionKey(b[1..])); } else { EmptyKey(); }
    if a != [] && b != [] && ProjectionKey(a) == ProjectionKey(b) {
      ElementIs(a[0], b[0], ProjectionKey(a[1..]), ProjectionKey(b[1..]));
      KeyIsRow(a[1..], b[1..]);
      assert a == [a[0]] + a[1..] && b == [b[0]] + b[1..];
    }
  }

  lemma EmptyKey()
    ensures ProjectionKey([]) == ""
  {
  }

  lemma NotEmpty(v: Value, rest: string)
    ensures Element(v) + rest != ""
  {
  }
}
