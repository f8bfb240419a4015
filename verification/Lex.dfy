/** The byte-wise order Go uses for `<` on strings, and the facts about it that
    key ranges and ORDER BY rest on. */
module Lex {

  /** `a < b` on strings: the first differing character decides, a proper prefix is smaller. */
  predicate Less(a: string, b: string) {
    if b == "" then false
    else if a == "" then true
    else a[0] < b[0] || (a[0] == b[0] && Less(a[1..], b[1..]))
  }

  /** The same by position: up to `k` they agree, and there `a` ends or has the smaller character. */
  predicate DecidedAt(a: string, b: string, k: nat) {
    k <= |a| && k < |b| && a[..k] == b[..k] && (k < |a| ==> a[k] < b[k])
  }

  ghost predicate Earlier(a: string, b: string) { exists k: nat :: DecidedAt(a, b, k) }

  lemma SameHead(a: string, b: string, k: nat)
    ensures DecidedAt(a, b, k) && k > 0 ==> a != "" && b != "" && a[0] == b[0]
  {
    if DecidedAt(a, b, k) && k > 0 { assert a[..k][0] == a[0] && b[..k][0] == b[0]; }
  }

  lemma {:induction false} LessIs(a: string, b: string)
    ensures Less(a, b) <==> Earlier(a, b)
  {
    if a == "" || b == "" || a[0] != b[0] {
      if Less(a, b) { assert DecidedAt(a, b, 0); }
      forall k: nat { SameHead(a, b, k); }
    } else {
      var x, y := a[1..], b[1..];
      LessIs(x, y);
      if k: nat :| DecidedAt(x, y, k) {
        assert a[..k + 1] == [a[0]] + x[..k] && b[..k + 1] == [b[0]] + y[..k];
        assert DecidedAt(a, b, k + 1);
      }
      if k: nat :| DecidedAt(a, b, k) {
        assert x[..k - 1] == a[..k][1..] && y[..k - 1] == b[..k][1..];
        assert DecidedAt(x, y, k - 1);
      }
    }
  }

  lemma {:induction false} Irreflexive(a: string)
    ensures !Less(a, a)
  {
    if a != "" {
      Irreflexive(a[1..]);
    }
  }

  lemma {:induction false} Transitive(a: string, b: string, c: string)
    requires Less(a, b) && Less(b, c)
    ensures Less(a, c)
  {
    if a != "" && a[0] == b[0] == c[0] {
      Transitive(a[1..], b[1..], c[1..]);
    }
  }

  lemma {:induction false} Trichotomy(a: string, b: string)
    ensures Less(a, b) || a == b || Less(b, a)
  {
    if a != "" && b != "" && a[0] == b[0] {
      Trichotomy(a[1..], b[1..]);
      assert a == [a[0]] + a[1..] && b == [b[0]] + b[1..];
    }
  }

  /** `x < a <= b` and `x <= a < b` both give `x < b`, in the negated forms that range bounds use. */
  lemma AtMostTransitive(a: string, b: string, c: string)
    ensures Less(a, b) && !Less(c, b) ==> Less(a, c)
    ensures !Less(b, a) && Less(b, c) ==> Less(a, c)
    ensures !Less(b, a) && !Less(c, b) ==> !Less(c, a)
  {
    Trichotomy(a, b);
    Trichotomy(b, c);
    Irreflexive(a);
    Irreflexive(b);
    Irreflexive(c);
    if Less(a, b) && Less(b, c) { Transitive(a, b, c); }
    if Less(c, a) && Less(a, b) { Transitive(c, a, b); }
    if Less(b, c) && Less(c, a) { Transitive(b, c, a); }
  }

  /** The order never holds both ways, nor between equals. */
  lemma Asymmetric(a: string, b: string)
    requires Less(a, b)
    ensures !Less(b, a) && a != b
  {
  }
}
