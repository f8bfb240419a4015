/** SQL LIKE (internal/engine/parser.go, likeMatch): the greedy two-index loop against the
    recursive meaning of '%' and '_'. Patterns and values are sequences of runes. */
module Like {

  /** '%' matches any run, '_' exactly one rune, anything else itself. */
  predicate Likes(p: string, v: string)
    decreases |p| + |v|
  {
    if p == [] then v == []
    else if p[0] == '%' then Likes(p[1..], v) || (v != [] && Likes(p, v[1..]))
    else v != [] && (p[0] == '_' || p[0] == v[0]) && Likes(p[1..], v[1..])
  }

  predicate OnlyPercent(p: string) {
    forall i :: 0 <= i < |p| ==> p[i] == '%'
  }

  predicate MatchesOne(p: string, v: string, pi: nat, vi: nat)
    requires vi < |v|
  {
    pi < |p| && (p[pi] == '_' || p[pi] == v[vi])
  }

  /** The positions the loop can be in; `starP` is -1 until a '%' has been passed. */
  predicate Positions(p: string, v: string, pi: nat, vi: nat, starP: int, starV: int) {
    && pi <= |p| && vi <= |v|
    && (starP == -1 == starV || (0 <= starP < pi && 0 <= starV <= vi))
  }

  /** The loop as a recursive function of its four positions: a literal match is tried before the
      wildcard, and a mismatch goes back to the last wildcard with one more rune given to it. */
  predicate Greedy(p: string, v: string, pi: nat, vi: nat, starP: int, starV: int)
    requires Positions(p, v, pi, vi, starP, starV)
    decreases |v| - starV, |v| - vi, |p| - pi
  {
    if vi == |v| then OnlyPercent(p[pi..])
    else if MatchesOne(p, v, pi, vi) then Greedy(p, v, pi + 1, vi + 1, starP, starV)
    else if pi < |p| && p[pi] == '%' then Greedy(p, v, pi + 1, vi, pi, vi)
    else if starP >= 0 then Greedy(p, v, starP + 1, starV + 1, starP, starV + 1)
    else false
  }

  predicate LikeCode(p: string, v: string) {
    Greedy(p, v, 0, 0, -1, -1)
  }

  method LikeMatch(p: string, v: string) returns (matches: bool)
    ensures matches == LikeCode(p, v)
    ensures '%' !in p || '%' !in v ==> matches == Likes(p, v)
  {
    if '%' !in p || '%' !in v { GreedyIsLike(p, v, 0, 0, -1, -1); }
    var pi, vi, starP, starV := 0, 0, -1, -1;
    while vi < |v|
      invariant Positions(p, v, pi, vi, starP, starV)
      invariant Greedy(p, v, pi, vi, starP, starV) == LikeCode(p, v)
      decreases |v| - starV, |v| - vi, |p| - pi
    {
      if pi < |p| && (p[pi] == '_' || p[pi] == v[vi]) {
        pi, vi := pi + 1, vi + 1;
      } else if pi < |p| && p[pi] == '%' {
        starP, starV := pi, vi;
        pi := pi + 1;
      } else if starP >= 0 {
        pi := starP + 1;
        starV := starV + 1;
        vi := starV;
      } else {
        return false;
      }
    }
    while pi < |p| && p[pi] == '%'
      invariant pi <= |p|
      invariant OnlyPercent(p[pi..]) == LikeCode(p, v)
    {
      assert p[pi..] == [p[pi]] + p[pi + 1..];
      pi := pi + 1;
    }
    if pi < |p| { assert p[pi..][0] == p[pi]; }
    return pi == |p|;
  }

  // ------------------------------------------------------------- agreement

  /** A wildcard-free stretch of the pattern against equally many runes. */
  predicate Literal(seg: string, w: string) {
    |seg| == |w| && forall i :: 0 <= i < |seg| ==> seg[i] != '%' && (seg[i] == '_' || seg[i] == w[i])
  }

  lemma {:induction false} LikesEmpty(p: string)
    ensures Likes(p, []) == OnlyPercent(p)
  {
    if p != [] {
      assert p == [p[0]] + p[1..];
      LikesEmpty(p[1..]);
    }
  }

  lemma {:induction false} LiteralCancels(seg: string, w: string, p: string, v: string)
    requires Literal(seg, w)
    ensures Likes(seg + p, w + v) == Likes(p, v)
  {
    if seg == [] {
      assert seg + p == p && w + v == v;
    } else {
      assert (seg + p)[1..] == seg[1..] + p && (w + v)[1..] == w[1..] + v;
      LiteralCancels(seg[1..], w[1..], p, v);
    }
  }

  /** Whatever a pattern starting with a wildcard matches, it matches with more runes in front. */
  lemma {:induction false} PercentAbsorbs(p: string, v: string, k: nat)
    requires p != [] && p[0] == '%' && k <= |v| && Likes(p, v[k..])
    ensures Likes(p, v)
    decreases k
  {
    if k > 0 {
      assert v[k - 1..][1..] == v[k..];
      PercentAbsorbs(p, v, k - 1);
    } else {
      assert v[0..] == v;
    }
  }

  /** A match of '%' + `q` gives the wildcard some `k` runes and matches `q` on the rest. */
  lemma {:induction false} PercentSplits(p: string, v: string) returns (k: nat)
    requires p != [] && p[0] == '%' && Likes(p, v)
    ensures k <= |v| && Likes(p[1..], v[k..])
    decreases |v|
  {
    if Likes(p[1..], v) {
      assert v[0..] == v;
      return 0;
    }
    k := PercentSplits(p, v[1..]);
    assert v[1..][k..] == v[k + 1..];
    k := k + 1;
  }

  /** A wildcard-free stretch uses up at least its own length. */
  lemma {:induction false} LiteralTakes(seg: string, p: string, v: string)
    requires forall i :: 0 <= i < |seg| ==> seg[i] != '%'
    requires Likes(seg + p, v)
    ensures |seg| <= |v| && Literal(seg, v[..|seg|]) && Likes(p, v[|seg|..])
  {
    if seg == [] {
      assert seg + p == p && v[0..] == v;
    } else {
      assert (seg + p)[1..] == seg[1..] + p;
      LiteralTakes(seg[1..], p, v[1..]);
      assert v[1..][|seg| - 1..] == v[|seg|..];
      assert v[..|seg|] == [v[0]] + v[1..][..|seg| - 1];
    }
  }

  /** The exchange argument: once the stretch after one '%' has matched, a second '%' makes going
      back to the first one pointless. */
  lemma LaterStarSuffices(seg: string, w: string, p: string, v: string)
    requires Literal(seg, w) && p != [] && p[0] == '%'
    ensures Likes(['%'] + seg + p, w + v) == Likes(p, v)
  {
    var q := ['%'] + seg + p;
    assert q[1..] == seg + p;
    LiteralCancels(seg, w, p, v);
    if Likes(q, w + v) {
      var k := PercentSplits(q, w + v);
      LiteralTakes(seg, p, (w + v)[k..]);
      assert (w + v)[k..][|seg|..] == v[k..];
      PercentAbsorbs(p, v, k);
    }
  }

  /** At the end of the value the wildcard cannot have taken anything. */
  lemma StarAtEnd(seg: string, w: string, p: string)
    requires Literal(seg, w)
    ensures Likes(['%'] + seg + p, w) == Likes(p, [])
  {
    var q := ['%'] + seg + p;
    assert q[1..] == seg + p && w + [] == w;
    LiteralCancels(seg, w, p, []);
    if Likes(q, w) {
      var k := PercentSplits(q, w);
      LiteralTakes(seg, p, w[k..]);
      assert w[k..] == w;
    }
  }

  /** What the positions mean: everything since the last '%' has matched rune by rune. */
  ghost predicate Progress(p: string, v: string, pi: nat, vi: nat, starP: int, starV: int) {
    && Positions(p, v, pi, vi, starP, starV)
    && (starP >= 0 ==> p[starP] == '%' && '%' !in v && Literal(p[starP + 1..pi], v[starV..vi]))
    && ('%' in p[pi..] ==> '%' !in v)
  }

  /** The question the loop still has to answer. */
  ghost predicate Remaining(p: string, v: string, pi: nat, vi: nat, starP: int, starV: int)
    requires Positions(p, v, pi, vi, starP, starV)
  {
    if starP < 0 then Likes(p[pi..], v[vi..]) else Likes(p[starP..], v[starV..])
  }

  lemma {:induction false} GreedyIsLike(p: string, v: string, pi: nat, vi: nat, starP: int, starV: int)
    requires Progress(p, v, pi, vi, starP, starV)
    ensures Greedy(p, v, pi, vi, starP, starV) == Remaining(p, v, pi, vi, starP, starV)
    decreases |v| - starV, |v| - vi, |p| - pi
  {
    if vi == |v| {
      LikesEmpty(p[pi..]);
      if starP >= 0 {
        assert p[starP..] == ['%'] + p[starP + 1..pi] + p[pi..];
        assert v[starV..] == v[starV..vi];
        StarAtEnd(p[starP + 1..pi], v[starV..vi], p[pi..]);
      }
    } else if MatchesOne(p, v, pi, vi) {
      GoOn(p, v, pi, vi, starP, starV);
      GreedyIsLike(p, v, pi + 1, vi + 1, starP, starV);
    } else if pi < |p| && p[pi] == '%' {
      NewStar(p, v, pi, vi, starP, starV);
      GreedyIsLike(p, v, pi + 1, vi, pi, vi);
    } else if starP >= 0 {
      GoBack(p, v, pi, vi, starP, starV);
      GreedyIsLike(p, v, starP + 1, starV + 1, starP, starV + 1);
    }
  }

  /** A literal match extends the stretch since the last wildcard. */
  lemma GoOn(p: string, v: string, pi: nat, vi: nat, starP: int, starV: int)
    requires Progress(p, v, pi, vi, starP, starV) && vi < |v| && MatchesOne(p, v, pi, vi)
    ensures Progress(p, v, pi + 1, vi + 1, starP, starV)
    ensures Remaining(p, v, pi, vi, starP, starV) == Remaining(p, v, pi + 1, vi + 1, starP, starV)
  {
    assert p[pi..] == [p[pi]] + p[pi + 1..] && v[vi..][1..] == v[vi + 1..];
    if starP >= 0 {
      assert p[starP + 1..pi + 1] == p[starP + 1..pi] + [p[pi]];
      assert v[starV..vi + 1] == v[starV..vi] + [v[vi]];
    }
  }

  /** A new wildcard supersedes the previous one. */
  lemma NewStar(p: string, v: string, pi: nat, vi: nat, starP: int, starV: int)
    requires Progress(p, v, pi, vi, starP, starV) && vi < |v| && pi < |p| && p[pi] == '%'
    ensures Progress(p, v, pi + 1, vi, pi, vi)
    ensures Remaining(p, v, pi, vi, starP, starV) == Remaining(p, v, pi + 1, vi, pi, vi)
  {
    assert p[pi..] == [p[pi]] + p[pi + 1..];
    assert p[pi + 1..pi + 1] == [] && v[vi..vi] == [];
    if starP >= 0 {
      assert p[starP..] == ['%'] + p[starP + 1..pi] + p[pi..];
      assert v[starV..] == v[starV..vi] + v[vi..];
      LaterStarSuffices(p[starP + 1..pi], v[starV..vi], p[pi..], v[vi..]);
    }
  }

  /** On a mismatch the wildcard must take at least one more rune. */
  lemma GoBack(p: string, v: string, pi: nat, vi: nat, starP: int, starV: int)
    requires Progress(p, v, pi, vi, starP, starV) && starP >= 0 && vi < |v|
    requires !MatchesOne(p, v, pi, vi) && !(pi < |p| && p[pi] == '%')
    ensures Progress(p, v, starP + 1, starV + 1, starP, starV + 1)
    ensures Likes(p[starP..], v[starV..]) == Likes(p[starP..], v[starV + 1..])
  {
    LiteralCancels(p[starP + 1..pi], v[starV..vi], p[pi..], v[vi..]);
    assert p[starP + 1..] == p[starP + 1..pi] + p[pi..];
    assert v[starV..] == v[starV..vi] + v[vi..];
    assert p[starP..][1..] == p[starP + 1..] && v[starV..][1..] == v[starV + 1..];
    assert p[starP + 1..starP + 1] == [];
  }

  /** LIKE is exact for every pattern when the value has no '%', and for every value when the pattern has none. */
  lemma LikeIsExact(p: string, v: string)
    requires '%' !in p || '%' !in v
    ensures LikeCode(p, v) == Likes(p, v)
  {
    assert p[0..] == p && v[0..] == v;
    GreedyIsLike(p, v, 0, 0, -1, -1);
  }

  // ------------------------------------------------------ it never accepts wrongly

  /** What an accepting position promises: the rest matches, or what the last wildcard began does. */
  predicate Promise(p: string, v: string, pi: nat, vi: nat, starP: int, starV: int)
    requires Positions(p, v, pi, vi, starP, starV)
  {
    Likes(p[pi..], v[vi..]) || (starP >= 0 && Likes(p[starP..], v[starV..]))
  }

  lemma TakeOne(p: string, v: string, pi: nat, vi: nat)
    requires vi < |v| && MatchesOne(p, v, pi, vi) && Likes(p[pi + 1..], v[vi + 1..])
    ensures Likes(p[pi..], v[vi..])
  {
    assert p[pi..][1..] == p[pi + 1..] && v[vi..][1..] == v[vi + 1..];
    if p[pi] == '%' { GiveOne(p[pi..], v[vi..]); }
  }

  /** A wildcard may take the first rune. */
  lemma GiveOne(p: string, v: string)
    requires p != [] && p[0] == '%' && v != [] && (Likes(p[1..], v[1..]) || Likes(p, v[1..]))
    ensures Likes(p, v)
  {
    assert Likes(p, v[1..]);
  }

  lemma {:induction false} GreedyPromises(p: string, v: string, pi: nat, vi: nat, starP: int, starV: int)
    requires Positions(p, v, pi, vi, starP, starV) && (starP >= 0 ==> p[starP] == '%')
    requires Greedy(p, v, pi, vi, starP, starV)
    ensures Promise(p, v, pi, vi, starP, starV)
    decreases |v| - starV, |v| - vi, |p| - pi
  {
    hide Likes;
    if vi == |v| {
      assert v[vi..] == "";
      LikesEmpty(p[pi..]);
    } else if MatchesOne(p, v, pi, vi) {
      GreedyPromises(p, v, pi + 1, vi + 1, starP, starV);
      if Likes(p[pi + 1..], v[vi + 1..]) { TakeOne(p, v, pi, vi); }
    } else if pi < |p| && p[pi] == '%' {
      GreedyPromises(p, v, pi + 1, vi, pi, vi);
      if Likes(p[pi + 1..], v[vi..]) { GiveNone(p, v, pi, vi); }
    } else {
      GreedyPromises(p, v, starP + 1, starV + 1, starP, starV + 1);
      assert p[starP..][1..] == p[starP + 1..] && v[starV..][1..] == v[starV + 1..];
      GiveOne(p[starP..], v[starV..]);
    }
  }

  lemma GiveNone(p: string, v: string, pi: nat, vi: nat)
    requires pi < |p| && p[pi] == '%' && vi <= |v| && Likes(p[pi + 1..], v[vi..])
    ensures Likes(p[pi..], v[vi..])
  {
    assert p[pi..][1..] == p[pi + 1..];
  }

  /** For every pattern and value, what the code accepts is LIKE: all its mistakes are rejections. */
  lemma NeverAcceptsWrongly(p: string, v: string)
    requires LikeCode(p, v)
    ensures Likes(p, v)
  {
    hide Likes;
    GreedyPromises(p, v, 0, 0, -1, -1);
    assert p[0..] == p && v[0..] == v;
  }

  // ---------------------------------------------------- where it is not exact

  function LastPercent(s: string): (j: nat)
    requires '%' in s
    ensures j < |s| && s[j] == '%' && '%' !in s[j + 1..]
    decreases |s|
  {
    if '%' in s[1..] then
      assert s[1..][LastPercent(s[1..]) + 1..] == s[LastPercent(s[1..]) + 2..];
      LastPercent(s[1..]) + 1
    else 0
  }

  lemma {:induction false} SamePrefixLikes(a: string, p: string, v: string)
    requires Likes(p, v)
    ensures Likes(a + p, a + v)
  {
    if a == [] {
      assert a + p == p && a + v == v;
    } else {
      assert (a + p)[1..] == a[1..] + p && (a + v)[1..] == a[1..] + v;
      SamePrefixLikes(a[1..], p, v);
    }
  }

  /** Equal characters are consumed as literals, '%' included, without remembering a wildcard. */
  lemma {:induction false} SamePrefixConsumed(a: string, p: string, v: string, k: nat)
    requires k <= |a|
    ensures Greedy(a + p, a + v, k, k, -1, -1) == Greedy(a + p, a + v, |a|, |a|, -1, -1)
    decreases |a| - k
  {
    if k < |a| {
      SamePrefixConsumed(a, p, v, k + 1);
    }
  }

  lemma {:induction false} LiteralLength(p: string, v: string)
    requires '%' !in p && Likes(p, v)
    ensures |p| == |v|
    decreases |p|
  {
    if p != [] {
      LiteralLength(p[1..], v[1..]);
    }
  }

  /** After a common prefix, a wildcard-free rest of another length is rejected. */
  lemma RejectedAfterPrefix(a: string, p: string, v: string)
    requires '%' !in p && |p| != |v|
    ensures !LikeCode(a + p, a + v)
  {
    SamePrefixConsumed(a, p, v, 0);
    assert (a + p)[|a|..] == p && (a + v)[|a|..] == v;
    GreedyIsLike(a + p, a + v, |a|, |a|, -1, -1);
    if Likes(p, v) { LiteralLength(p, v); }
  }

  lemma SameLikes(b: string)
    ensures Likes(b, b)
  {
    SamePrefixLikes(b, [], []);
    assert b + [] == b;
  }

  lemma ExtraRuneMatches(b: string, c: char)
    ensures Likes(['%'] + b, ['%', c] + b)
  {
    var p, v := ['%'] + b, ['%', c] + b;
    SameLikes(b);
    assert p[1..] == b && v[2..] == b;
    assert Likes(p, v[2..]);
    PercentAbsorbs(p, v, 2);
  }

  lemma ExtraMarkMatches(b: string)
    ensures Likes(['%', '_'] + b, ['%'] + b)
  {
    var p, q, v := ['%', '_'] + b, ['_'] + b, ['%'] + b;
    SameLikes(b);
    assert p[1..] == q && q[1..] == b && v[1..] == b;
    assert Likes(q, v);
  }

  /** Around the last wildcard of a pattern: the value repeats it and adds one rune. */
  lemma RejectsWrongly(a: string, b: string, c: char)
    requires '%' !in b
    ensures Likes(a + (['%'] + b), a + (['%', c] + b)) && !LikeCode(a + (['%'] + b), a + (['%', c] + b))
  {
    hide Likes, Greedy, LikeCode;
    ExtraRuneMatches(b, c);
    SamePrefixLikes(a, ['%'] + b, ['%', c] + b);
    RejectedAfterPrefix(a + ['%'], b, [c] + b);
    assert a + ['%'] + b == a + (['%'] + b);
    assert a + ['%'] + ([c] + b) == a + (['%', c] + b);
  }

  /** Around the last '%' of a value: the pattern repeats it and adds one '_'. */
  lemma RejectedWrongly(a: string, b: string)
    requires '%' !in b
    ensures Likes(a + (['%', '_'] + b), a + (['%'] + b)) && !LikeCode(a + (['%', '_'] + b), a + (['%'] + b))
  {
    hide Likes, Greedy, LikeCode;
    ExtraMarkMatches(b);
    SamePrefixLikes(a, ['%', '_'] + b, ['%'] + b);
    RejectedAfterPrefix(a + ['%'], ['_'] + b, b);
    assert a + ['%'] + b == a + (['%'] + b);
    assert a + ['%'] + (['_'] + b) == a + (['%', '_'] + b);
  }

  /** Exactly the patterns without '%' are matched faithfully on every value. */
  lemma FaithfulPatterns(p: string)
    ensures (forall v :: LikeCode(p, v) == Likes(p, v)) <==> '%' !in p
  {
    hide Likes, Greedy, LikeCode, LastPercent;
    if '%' in p {
      var j := LastPercent(p);
      RejectsWrongly(p[..j], p[j + 1..], 'x');
      assert p[..j] + (['%'] + p[j + 1..]) == p;
    } else {
      forall v ensures LikeCode(p, v) == Likes(p, v) { LikeIsExact(p, v); }
    }
  }

  /** Exactly the values without '%' are matched faithfully by every pattern. */
  lemma FaithfulValues(v: string)
    ensures (forall p :: LikeCode(p, v) == Likes(p, v)) <==> '%' !in v
  {
    hide Likes, Greedy, LikeCode, LastPercent;
    if '%' in v {
      var j := LastPercent(v);
      RejectedWrongly(v[..j], v[j + 1..]);
      assert v[..j] + (['%'] + v[j + 1..]) == v;
    } else {
      forall p ensures LikeCode(p, v) == Likes(p, v) { LikeIsExact(p, v); }
    }
  }
}
