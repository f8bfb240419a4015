/** ORDER BY (internal/engine/orderby.go): ranking, the bounded heap that keeps the best k rows, and
    the sort after it, against a plain stable insertion sort. The library sort is a parameter. */
module OrderBy {
  import opened Values
  import opened Storage
  import opened TableState

  /** A candidate row: its key, its sort value and where it was collected. */
  datatype Entry = Entry(key: Key, val: Value, pos: nat)

  /** Value order, inverted for DESC. */
  predicate ValueBefore(a: Entry, b: Entry, descending: bool) {
    if descending then ValueLess(b.val, a.val) else ValueLess(a.val, b.val)
  }

  /** rankBefore: value order first, collection order for ties. */
  predicate Before(a: Entry, b: Entry, descending: bool) {
    if ValueLess(a.val, b.val) then !descending
    else if ValueLess(b.val, a.val) then descending
    else a.pos < b.pos
  }

  /** Values of one column. */
  ghost predicate Typed(es: seq<Entry>, t: Type) { forall i :: 0 <= i < |es| ==> HasType(es[i].val, t) }

  /** On entries of one column, ranking is a strict total order. */
  lemma RankOrder(a: Entry, b: Entry, c: Entry, descending: bool, t: Type)
    requires HasType(a.val, t) && HasType(b.val, t) && HasType(c.val, t)
    ensures !Before(a, a, descending)
    ensures !(Before(a, b, descending) && Before(b, a, descending))
    ensures a.pos != b.pos ==> Before(a, b, descending) || Before(b, a, descending)
    ensures Before(a, b, descending) && Before(b, c, descending) ==> Before(a, c, descending)
    ensures Before(a, c, descending) ==>
            Before(a, b, descending) || Before(b, c, descending) || a.pos == b.pos || b.pos == c.pos
  {
    hide ValueLess, HasType;
    ValueOrder(a.val, b.val, c.val, t);
    ValueOrder(b.val, a.val, c.val, t);
    ValueOrder(a.val, c.val, b.val, t);
    ValueOrder(c.val, b.val, a.val, t);
    ValueOrder(b.val, c.val, a.val, t);
    ValueOrder(c.val, a.val, b.val, t);
    ValueOrder(a.val, a.val, a.val, t);
  }

  // ------------------------------------------------------- the reference sort

  /** Puts `e` behind everything its value does not come before. */
  function Insert(s: seq<Entry>, e: Entry, descending: bool): (r: seq<Entry>)
    ensures |r| == |s| + 1
  {
    if s != [] && ValueBefore(e, s[|s| - 1], descending)
    then Insert(s[..|s| - 1], e, descending) + [s[|s| - 1]]
    else s + [e]
  }

  /** Stable insertion sort by value alone. */
  function StableSort(es: seq<Entry>, descending: bool): (r: seq<Entry>)
    ensures |r| == |es|
  {
    if es == [] then [] else Insert(StableSort(es[..|es| - 1], descending), es[|es| - 1], descending)
  }

  ghost predicate Sorted(s: seq<Entry>, descending: bool) {
    forall i, j :: 0 <= i < j < |s| ==> Before(s[i], s[j], descending)
  }

  /** Collected in order. */
  ghost predicate Numbered(es: seq<Entry>) { forall i :: 0 <= i < |es| ==> es[i].pos == i }

  /** `e` was collected after everything in `s`. */
  ghost predicate Later(s: seq<Entry>, e: Entry) { forall i :: 0 <= i < |s| ==> s[i].pos < e.pos }

  lemma {:induction false} InsertIs(s: seq<Entry>, e: Entry, descending: bool) returns (k: nat)
    ensures k <= |s| && Insert(s, e, descending) == s[..k] + [e] + s[k..]
    ensures (k < |s| ==> ValueBefore(e, s[k], descending)) && (k > 0 ==> !ValueBefore(e, s[k - 1], descending))
    decreases |s|
  {
    hide ValueBefore;
    if s != [] && ValueBefore(e, s[|s| - 1], descending) {
      var first := s[..|s| - 1];
      k := InsertIs(first, e, descending);
      assert first[..k] == s[..k] && first[k..] + [s[|s| - 1]] == s[k..];
    } else {
      k := |s|;
    }
  }

  lemma InsertSorted(s: seq<Entry>, e: Entry, descending: bool, t: Type)
    requires Sorted(s, descending) && Typed(s, t) && HasType(e.val, t) && Later(s, e)
    ensures Sorted(Insert(s, e, descending), descending) && Typed(Insert(s, e, descending), t)
  {
    hide ValueLess, HasType, Insert, Before;
    var k := InsertIs(s, e, descending);
    var r := Insert(s, e, descending);
    forall i | 0 <= i < |s| ensures if i < k then Before(s[i], e, descending) else Before(e, s[i], descending) {
      Around(s, e, k, i, descending, t);
    }
    assert forall i :: 0 <= i < |r| ==> r[i] == if i < k then s[i] else if i == k then e else s[i - 1];
  }

  lemma Around(s: seq<Entry>, e: Entry, k: nat, i: nat, descending: bool, t: Type)
    requires Sorted(s, descending) && Typed(s, t) && HasType(e.val, t) && Later(s, e) && k <= |s| && i < |s|
    requires (k < |s| ==> ValueBefore(e, s[k], descending)) && (k > 0 ==> !ValueBefore(e, s[k - 1], descending))
    ensures if i < k then Before(s[i], e, descending) else Before(e, s[i], descending)
  {
    hide ValueLess, HasType;
    if i < k {
      ValueOrder(s[i].val, s[k - 1].val, e.val, t);
      ValueOrder(e.val, s[k - 1].val, s[i].val, t);
      ValueOrder(e.val, s[i].val, s[k - 1].val, t);
      ValueOrder(s[k - 1].val, s[i].val, e.val, t);
    } else {
      ValueOrder(e.val, s[i].val, s[k].val, t);
      ValueOrder(s[k].val, s[i].val, e.val, t);
      ValueOrder(e.val, s[k].val, s[i].val, t);
      ValueOrder(s[i].val, s[k].val, e.val, t);
    }
  }

  lemma {:induction false} InsertMembers(s: seq<Entry>, e: Entry, descending: bool)
    ensures multiset(Insert(s, e, descending)) == multiset(s) + multiset{e}
    decreases |s|
  {
    hide ValueBefore;
    if s != [] && ValueBefore(e, s[|s| - 1], descending) {
      InsertMembers(s[..|s| - 1], e, descending);
      assert s == s[..|s| - 1] + [s[|s| - 1]];
    }
  }

  lemma Prefix(s: seq<Entry>, n: nat, descending: bool, t: Type)
    requires n <= |s|
    ensures Sorted(s, descending) ==> Sorted(s[..n], descending)
    ensures Typed(s, t) ==> Typed(s[..n], t)
    ensures Numbered(s) ==> Numbered(s[..n])
  {
    hide Before, HasType;
  }

  /** Positions stay below `n`. */
  ghost predicate Under(s: seq<Entry>, n: nat) { forall i :: 0 <= i < |s| ==> s[i].pos < n }

  lemma InsertUnder(s: seq<Entry>, e: Entry, descending: bool)
    requires Under(s, e.pos)
    ensures Later(s, e) && Under(Insert(s, e, descending), e.pos + 1)
  {
    hide Insert, ValueBefore;
    var k := InsertIs(s, e, descending);
  }

  lemma Snoc(s: seq<Entry>)
    requires s != []
    ensures s == s[..|s| - 1] + [s[|s| - 1]] && multiset(s) == multiset(s[..|s| - 1]) + multiset{s[|s| - 1]}
  {
    assert s == s[..|s| - 1] + [s[|s| - 1]];
  }

  /** The stable sort of collected entries ranks them. */
  lemma {:induction false} StableSortRanks(es: seq<Entry>, descending: bool, t: Type)
    requires Numbered(es) && Typed(es, t)
    ensures Sorted(StableSort(es, descending), descending) && Typed(StableSort(es, descending), t)
    ensures multiset(StableSort(es, descending)) == multiset(es) && Under(StableSort(es, descending), |es|)
    decreases |es|
  {
    if es != [] {
      var n := |es| - 1;
      var first, e := es[..n], es[n];
      assert HasType(e.val, t) && e.pos == n;
      hide Insert, Sorted, Typed, Under, Numbered, Later, HasType;
      Prefix(es, n, descending, t);
      StableSortRanks(first, descending, t);
      InsertUnder(StableSort(first, descending), e, descending);
      InsertSorted(StableSort(first, descending), e, descending, t);
      InsertMembers(StableSort(first, descending), e, descending);
      Snoc(es);
    }
  }

  /** A ranking has only one sorted arrangement, so any correct sort gives it. */
  lemma {:induction false} SortedUnique(a: seq<Entry>, b: seq<Entry>, descending: bool, t: Type)
    requires Sorted(a, descending) && Sorted(b, descending) && multiset(a) == multiset(b) && Typed(a, t)
    ensures a == b
    decreases |a|
  {
    hide Sorted, Typed;
    SameLength(a, b);
    if a != [] {
      var n := |a| - 1;
      LastIsLast(a, b, descending, t);
      Snoc(a);
      Snoc(b);
      assert multiset(a[..n]) == multiset(a) - multiset{a[n]} && multiset(b[..n]) == multiset(b) - multiset{b[n]};
      Prefix(a, n, descending, t);
      Prefix(b, n, descending, t);
      SortedUnique(a[..n], b[..n], descending, t);
    }
  }

  lemma SameLength<T>(a: seq<T>, b: seq<T>)
    requires multiset(a) == multiset(b)
    ensures |a| == |b|
  {
    assert |multiset(a)| == |a| && |multiset(b)| == |b|;
  }

  lemma LastIsLast(a: seq<Entry>, b: seq<Entry>, descending: bool, t: Type)
    requires Sorted(a, descending) && Sorted(b, descending) && multiset(a) == multiset(b) && Typed(a, t)
             && |a| == |b| > 0
    ensures a[|a| - 1] == b[|b| - 1]
  {
    hide Before, HasType;
    var x, y := a[|a| - 1], b[|b| - 1];
    assert x in multiset(b) && y in multiset(a);
    var i :| 0 <= i < |b| && b[i] == x;
    var j :| 0 <= j < |a| && a[j] == y;
    if x != y {
      assert Before(x, y, descending) && Before(y, x, descending);
      RankOrder(x, y, x, descending, t);
    }
  }

  // ------------------------------------------------------------- the best k

  function Best(s: seq<Entry>, k: nat): seq<Entry> { if k < |s| then s[..k] else s }

  lemma TakeSpliced(s: seq<Entry>, m: nat, e: Entry, k: nat)
    requires m <= |s| && 1 <= k <= |s|
    ensures var r := s[..m] + [e] + s[m..];
            if m < k then multiset(r[..k]) == multiset(s[..k]) - multiset{s[k - 1]} + multiset{e} else r[..k] == s[..k]
  {
    var r := s[..m] + [e] + s[m..];
    if m < k {
      var a, b := s[..m], s[m..k - 1];
      assert r[..k] == a + [e] + b;
      assert s[..k] == a + b + [s[k - 1]];
      assert multiset(r[..k]) == multiset(a) + multiset{e} + multiset(b);
      assert multiset(s[..k]) == multiset(a) + multiset(b) + multiset{s[k - 1]};
    } else {
      assert r[..k] == s[..k];
    }
  }

  /** How one more candidate changes the best k: it pushes out the last of them, or nothing. */
  lemma BestOfInsert(s: seq<Entry>, e: Entry, k: nat, descending: bool, t: Type)
    requires Sorted(s, descending) && Typed(s, t) && HasType(e.val, t) && Later(s, e) && k >= 1
    ensures |s| < k ==> multiset(Best(Insert(s, e, descending), k)) == multiset(s) + multiset{e}
    ensures |s| >= k && Before(e, s[k - 1], descending) ==>
              multiset(Best(Insert(s, e, descending), k)) == multiset(Best(s, k)) - multiset{s[k - 1]} + multiset{e}
    ensures |s| >= k && !Before(e, s[k - 1], descending) ==> Best(Insert(s, e, descending), k) == Best(s, k)
  {
    hide Insert, Sorted, Typed, Later, ValueBefore, Before, HasType;
    var m := InsertIs(s, e, descending);
    InsertMembers(s, e, descending);
    if |s| >= k {
      TypedAt(s, k - 1, t);
      Around(s, e, m, k - 1, descending, t);
      RankOrder(e, s[k - 1], e, descending, t);
      TakeSpliced(s, m, e, k);
      assert k == |s| ==> s[..k] == s;
    }
  }

  lemma TypedAt(s: seq<Entry>, i: nat, t: Type)
    requires Typed(s, t) && i < |s|
    ensures HasType(s[i].val, t)
  {
  }

  // --------------------------------------------------------------- the heap

  function Parent(i: nat): nat
    requires i > 0
  {
    (i - 1) / 2
  }

  /** `x` does not rank after `y`: it may stand below `y` in the heap. */
  predicate Below(x: Entry, y: Entry, descending: bool) { !Before(y, x, descending) }

  lemma BelowOrder(x: Entry, y: Entry, z: Entry, descending: bool, t: Type)
    requires HasType(x.val, t) && HasType(y.val, t) && HasType(z.val, t)
    ensures Below(x, y, descending) || Below(y, x, descending)
    ensures Below(x, y, descending) && Below(y, z, descending) ==> Below(x, z, descending)
  {
    hide ValueLess, HasType;
    ValueOrder(x.val, y.val, z.val, t);
    ValueOrder(z.val, y.val, x.val, t);
    ValueOrder(z.val, x.val, y.val, t);
    ValueOrder(y.val, x.val, z.val, t);
    ValueOrder(x.val, z.val, y.val, t);
    ValueOrder(y.val, z.val, x.val, t);
  }

  /** Every entry may stand below its parent. */
  ghost predicate Heap(s: seq<Entry>, descending: bool) {
    forall i :: 0 < i < |s| ==> Below(s[i], s[Parent(i)], descending)
  }

  /** A heap but for the place of `j` under its parent, with its children fit for that parent. */
  ghost predicate Rising(s: seq<Entry>, j: nat, descending: bool) {
    && j < |s|
    && (forall i :: 0 < i < |s| && i != j ==> Below(s[i], s[Parent(i)], descending))
    && (forall i :: 0 < i < |s| && Parent(i) == j && j > 0 ==> Below(s[i], s[Parent(j)], descending))
  }

  /** A heap but for the children of `j`, which are fit for its parent. */
  ghost predicate Sinking(s: seq<Entry>, j: nat, descending: bool) {
    && (forall i :: 0 < i < |s| && Parent(i) != j ==> Below(s[i], s[Parent(i)], descending))
    && (forall i :: 0 < i < |s| && Parent(i) == j && j > 0 ==> Below(s[i], s[Parent(j)], descending))
  }

  function Swap(s: seq<Entry>, i: nat, j: nat): (r: seq<Entry>)
    requires i < |s| && j < |s|
    ensures multiset(r) == multiset(s) && |r| == |s|
  {
    s[i := s[j]][j := s[i]]
  }

  lemma SwapTyped(s: seq<Entry>, i: nat, j: nat, t: Type)
    requires i < |s| && j < |s| && Typed(s, t)
    ensures Typed(Swap(s, i, j), t)
  {
    hide HasType;
  }

  lemma RiseStep(s: seq<Entry>, j: nat, descending: bool, t: Type)
    requires Rising(s, j, descending) && j > 0 && Typed(s, t) && !Below(s[j], s[Parent(j)], descending)
    ensures Rising(Swap(s, Parent(j), j), Parent(j), descending)
  {
    hide Before, HasType;
    var p := Parent(j);
    var r := Swap(s, p, j);
    BelowOrder(s[j], s[p], s[p], descending, t);
    forall i | 0 < i < |r| && i != p ensures Below(r[i], r[Parent(i)], descending) {
      if Parent(i) == p && i != j { BelowOrder(s[i], s[p], s[j], descending, t); }
    }
    if p > 0 {
      forall i | 0 < i < |r| && Parent(i) == p ensures Below(r[i], r[Parent(p)], descending) {
        if i != j { BelowOrder(s[i], s[p], s[Parent(p)], descending, t); }
      }
    }
  }

  lemma SinkStep(s: seq<Entry>, i: nat, j: nat, descending: bool, t: Type)
    requires Sinking(s, i, descending) && Typed(s, t) && 0 < j < |s| && Parent(j) == i && Below(s[i], s[j], descending)
    requires forall k :: 0 < k < |s| && Parent(k) == i ==> Below(s[k], s[j], descending)
    ensures Sinking(Swap(s, i, j), j, descending)
  {
    hide Before, HasType;
    var r := Swap(s, i, j);
    forall k | 0 < k < |r| && Parent(k) != j ensures Below(r[k], r[Parent(k)], descending) {
    }
  }

  lemma {:induction false} RootIsLast(s: seq<Entry>, i: nat, descending: bool, t: Type)
    requires Heap(s, descending) && Typed(s, t) && i < |s|
    ensures Below(s[i], s[0], descending)
  {
    hide Before, HasType;
    if i == 0 {
      BelowOrder(s[0], s[0], s[0], descending, t);
    } else {
      RootIsLast(s, Parent(i), descending, t);
      BelowOrder(s[i], s[Parent(i)], s[0], descending, t);
    }
  }

  /** The root of a heap is the entry that comes last when its members are sorted. */
  lemma RootIs(h: seq<Entry>, sorted: seq<Entry>, descending: bool, t: Type)
    requires Heap(h, descending) && Typed(h, t) && Sorted(sorted, descending) && multiset(h) == multiset(sorted)
             && h != []
    ensures sorted != [] && h[0] == sorted[|sorted| - 1]
  {
    hide Before, HasType, Heap, Typed;
    SameLength(h, sorted);
    var last := sorted[|sorted| - 1];
    assert last in multiset(h) && h[0] in multiset(sorted);
    var i :| 0 <= i < |h| && h[i] == last;
    RootIsLast(h, i, descending, t);
    var j :| 0 <= j < |sorted| && sorted[j] == h[0];
  }

  /** The heap of the container library, over entries; its root ranks last. */
  class EntryHeap {
    var entries: seq<Entry>
    const descending: bool

    constructor (desc: bool)
      ensures entries == [] && descending == desc
    {
      entries, descending := [], desc;
    }

    static method Up(s: seq<Entry>, from: nat, descending: bool, ghost t: Type) returns (r: seq<Entry>)
      requires Rising(s, from, descending) && Typed(s, t)
      ensures Heap(r, descending) && Typed(r, t) && multiset(r) == multiset(s)
    {
      hide Before, HasType, Typed, Swap;
      var j := from;
      r := s;
      while j > 0 && Before(r[Parent(j)], r[j], descending)
        invariant Rising(r, j, descending) && Typed(r, t) && multiset(r) == multiset(s)
        decreases j
      {
        RiseStep(r, j, descending, t);
        SwapTyped(r, Parent(j), j, t);
        r, j := Swap(r, Parent(j), j), Parent(j);
      }
    }

    static method Down(s: seq<Entry>, descending: bool, ghost t: Type) returns (r: seq<Entry>)
      requires Sinking(s, 0, descending) && Typed(s, t)
      ensures Heap(r, descending) && Typed(r, t) && multiset(r) == multiset(s)
    {
      hide Before, HasType, Typed, Swap;
      var i := 0;
      r := s;
      while 2 * i + 1 < |r|
        invariant Sinking(r, i, descending) && Typed(r, t) && multiset(r) == multiset(s)
        decreases |r| - i
      {
        var j := 2 * i + 1;
        if j + 1 < |r| && Before(r[j], r[j + 1], descending) {
          j := j + 1;
        }
        BiggerChild(r, i, j, descending, t);
        if !Before(r[i], r[j], descending) {
          return;
        }
        SinkStep(r, i, j, descending, t);
        SwapTyped(r, i, j, t);
        r, i := Swap(r, i, j), j;
      }
    }

    method Push(e: Entry, ghost t: Type)
      requires Heap(entries, descending) && Typed(entries, t) && HasType(e.val, t)
      modifies this
      ensures Heap(entries, descending) && Typed(entries, t)
              && multiset(entries) == multiset(old(entries)) + multiset{e}
    {
      PushRises(entries, e, descending, t);
      entries := entries + [e];
      entries := Up(entries, |entries| - 1, descending, t);
    }

    method Pop(ghost t: Type) returns (e: Entry)
      requires Heap(entries, descending) && Typed(entries, t) && entries != []
      modifies this
      ensures Heap(entries, descending) && Typed(entries, t)
      ensures e == old(entries[0]) && multiset(entries) == multiset(old(entries)) - multiset{e}
    {
      var n := |entries| - 1;
      PopSinks(entries, descending, t);
      entries := Swap(entries, 0, n);
      e := entries[n];
      entries := Down(entries[..n], descending, t);
    }

    /** One candidate for a heap of at most `k`; looking at the root of an empty heap fails. */
    method Offer(e: Entry, k: nat, ghost t: Type) returns (ok: bool)
      requires Heap(entries, descending) && Typed(entries, t) && HasType(e.val, t)
      modifies this
      ensures ok <==> |old(entries)| < k || old(entries) != []
      ensures Heap(entries, descending) && Typed(entries, t)
      ensures multiset(entries) == if |old(entries)| < k then multiset(old(entries)) + multiset{e}
                                   else if ok && Before(e, old(entries)[0], descending)
                                     then multiset(old(entries)) - multiset{old(entries)[0]} + multiset{e}
                                   else multiset(old(entries))
    {
      hide Heap, Typed, HasType, Before;
      if |entries| < k {
        Push(e, t);
        return true;
      }
      if |entries| == 0 {
        return false;
      }
      if Before(e, entries[0], descending) {
        var _ := Pop(t);
        Push(e, t);
      }
      return true;
    }
  }

  lemma BiggerChild(r: seq<Entry>, i: nat, j: nat, descending: bool, t: Type)
    requires Sinking(r, i, descending) && Typed(r, t) && 2 * i + 1 < |r|
    requires j == if 2 * i + 2 < |r| && Before(r[2 * i + 1], r[2 * i + 2], descending) then 2 * i + 2 else 2 * i + 1
    ensures Parent(j) == i && forall k :: 0 < k < |r| && Parent(k) == i ==> Below(r[k], r[j], descending)
    ensures !Before(r[i], r[j], descending) ==> Heap(r, descending)
    ensures Before(r[i], r[j], descending) ==> Below(r[i], r[j], descending)
  {
    hide Before, HasType;
    forall k | 0 < k < |r| && Parent(k) == i ensures Below(r[k], r[j], descending) {
      assert k == 2 * i + 1 || k == 2 * i + 2;
      BelowOrder(r[k], r[j], r[j], descending, t);
      BelowOrder(r[2 * i + 1], r[j], r[k], descending, t);
    }
    BelowOrder(r[i], r[j], r[i], descending, t);
    if !Before(r[i], r[j], descending) {
      forall k | 0 < k < |r| ensures Below(r[k], r[Parent(k)], descending) {
        if Parent(k) == i { BelowOrder(r[k], r[j], r[i], descending, t); }
      }
    }
  }

  lemma PushRises(s: seq<Entry>, e: Entry, descending: bool, t: Type)
    requires Heap(s, descending) && Typed(s, t) && HasType(e.val, t)
    ensures Rising(s + [e], |s|, descending) && Typed(s + [e], t)
  {
    hide Before, HasType;
  }

  lemma PopSinks(s: seq<Entry>, descending: bool, t: Type)
    requires Heap(s, descending) && Typed(s, t) && s != []
    ensures var n := |s| - 1;
            var r := Swap(s, 0, n);
            r[n] == s[0] && Sinking(r[..n], 0, descending) && Typed(r[..n], t)
              && multiset(r[..n]) == multiset(s) - multiset{s[0]}
  {
    hide Before, HasType;
    var n := |s| - 1;
    var r := Swap(s, 0, n);
    assert r == r[..n] + [r[n]];
  }

  // ------------------------------------------------------------------- top k

  /** The heap holds the best k of the first `i` entries. */
  ghost predicate Selected(h: seq<Entry>, es: seq<Entry>, i: nat, k: nat, descending: bool, t: Type) {
    && i <= |es| && Heap(h, descending) && Typed(h, t)
    && multiset(h) == multiset(Best(StableSort(es[..i], descending), k))
  }

  lemma SortedPrefixIs(es: seq<Entry>, i: nat, descending: bool, t: Type)
    requires Numbered(es) && Typed(es, t) && i < |es|
    ensures StableSort(es[..i + 1], descending) == Insert(StableSort(es[..i], descending), es[i], descending)
    ensures HasType(es[i].val, t)
    ensures var s := StableSort(es[..i], descending);
            Sorted(s, descending) && Typed(s, t) && Later(s, es[i]) && |s| == i
  {
    hide Insert, HasType, Sorted;
    Prefix(es, i, descending, t);
    StableSortRanks(es[..i], descending, t);
    assert es[..i + 1][..i] == es[..i];
  }

  /** What the next candidate does to the heap. */
  lemma SelectNext(h: seq<Entry>, es: seq<Entry>, i: nat, k: nat, descending: bool, t: Type)
    requires Numbered(es) && Typed(es, t) && i < |es| && k >= 1 && Selected(h, es, i, k, descending, t)
    ensures |h| == (if i < k then i else k) && HasType(es[i].val, t)
    ensures var after := multiset(Best(StableSort(es[..i + 1], descending), k));
            && (i < k ==> after == multiset(h) + multiset{es[i]})
            && (i >= k ==>
                after == if Before(es[i], h[0], descending) then multiset(h) - multiset{h[0]} + multiset{es[i]}
                         else multiset(h))
  {
    hide Insert, HasType, Sorted, Typed, Numbered, Heap, Later, Before, StableSort;
    var s := StableSort(es[..i], descending);
    SortedPrefixIs(es, i, descending, t);
    SameLength(h, Best(s, k));
    BestOfInsert(s, es[i], k, descending, t);
    if i >= k {
      Prefix(s, k, descending, t);
      assert k == |s| ==> s[..k] == s;
      RootIs(h, Best(s, k), descending, t);
    }
  }

  /** topKEntries. It looks at the root of an empty heap, and so fails, exactly when k is 0 and there is
      an entry. */
  method TopK(es: seq<Entry>, k: nat, descending: bool, ghost t: Type) returns (ok: bool, best: seq<Entry>)
    requires Numbered(es) && Typed(es, t)
    ensures ok <==> k >= 1 || es == []
    ensures ok ==> multiset(best) == multiset(Best(StableSort(es, descending), k)) && Typed(best, t)
  {
    hide Numbered, Typed, Heap, Selected, StableSort, Before, Best, HasType;
    var h := new EntryHeap(descending);
    StartSelect(es, k, descending, t);
    for i := 0 to |es|
      invariant h.descending == descending && fresh(h) && (i > 0 ==> k >= 1)
      invariant Selected(h.entries, es, i, k, descending, t)
    {
      SelectedHeap(h.entries, es, i, k, descending, t);
      TypedAt(es, i, t);
      if k >= 1 { SelectNext(h.entries, es, i, k, descending, t); }
      var taken := h.Offer(es[i], k, t);
      if !taken {
        return false, [];
      }
      SelectedNow(h.entries, es, i + 1, k, descending, t);
    }
    assert es[..|es|] == es;
    SelectedHeap(h.entries, es, |es|, k, descending, t);
    return true, h.entries;
  }

  lemma StartSelect(es: seq<Entry>, k: nat, descending: bool, t: Type)
    ensures Selected([], es, 0, k, descending, t)
  {
    assert es[..0] == [] && StableSort([], descending) == [];
  }

  lemma SelectedHeap(h: seq<Entry>, es: seq<Entry>, i: nat, k: nat, descending: bool, t: Type)
    requires Selected(h, es, i, k, descending, t)
    ensures Heap(h, descending) && Typed(h, t) && multiset(h) == multiset(Best(StableSort(es[..i], descending), k))
    ensures k == 0 ==> h == []
  {
    hide Heap, Typed, StableSort;
    SameLength(h, Best(StableSort(es[..i], descending), k));
  }

  lemma SelectedNow(h: seq<Entry>, es: seq<Entry>, i: nat, k: nat, descending: bool, t: Type)
    requires i <= |es| && Heap(h, descending) && Typed(h, t)
             && multiset(h) == multiset(Best(StableSort(es[..i], descending), k))
    ensures Selected(h, es, i, k, descending, t)
  {
  }

  // --------------------------------------------------------------- order keys

  /** What the library sort is trusted with: a sorted permutation, wherever there is one. */
  ghost predicate Sorts(sort: seq<Entry> -> seq<Entry>, descending: bool) {
    forall s: seq<Entry>, b: seq<Entry> :: Sorted(b, descending) && multiset(b) == multiset(s) ==>
      Sorted(sort(s), descending) && multiset(sort(s)) == multiset(s)
  }

  lemma SortGives(sort: seq<Entry> -> seq<Entry>, s: seq<Entry>, b: seq<Entry>, descending: bool, t: Type)
    requires Sorts(sort, descending) && Sorted(b, descending) && multiset(s) == multiset(b) && Typed(b, t)
    ensures sort(s) == b
  {
    hide Sorted, Typed;
    SortedUnique(b, sort(s), descending, t);
  }

  /** The sort value of a key: from the array when it has the key, else from the row. */
  function Resolve(s: State, k: Key, column: string): Value {
    if s.fast != [] && column in s.colPos && k in s.fastPos && s.fastPos[k] < |s.fast| && s.fast[s.fastPos[k]].key != ""
       && s.colPos[column] < |s.fast[s.fastPos[k]].values|
    then s.fast[s.fastPos[k]].values[s.colPos[column]]
    else if k in s.rows then Get(s.rows[k], column)
    else Null
  }

  lemma ResolveIs(s: State, k: Key, column: string)
    requires Core(s) && FastOK(s) && k in s.rows
    ensures Resolve(s, k, column) == Get(s.rows[k], column)
  {
    hide RowsFit, IndexesFit, OrderFits, ColumnsFit, Dense, HasColumn, FastKeys;
  }

  function Candidates(rows: map<Key, Row>, keys: seq<Key>, column: string): (es: seq<Entry>)
    ensures |es| == |keys|
  {
    seq(|keys|, i requires 0 <= i < |keys| =>
      Entry(keys[i], if keys[i] in rows then Get(rows[keys[i]], column) else Null, i))
  }

  function KeysOf(es: seq<Entry>): (ks: seq<Key>)
    ensures |ks| == |es|
  {
    seq(|es|, i requires 0 <= i < |es| => es[i].key)
  }

  method Collect(s: State, keys: seq<Key>, column: string) returns (es: seq<Entry>)
    requires Core(s) && FastOK(s) && forall i :: 0 <= i < |keys| ==> keys[i] in s.rows
    ensures es == Candidates(s.rows, keys, column)
  {
    hide Core, FastOK, Resolve;
    es := [];
    for i := 0 to |keys|
      invariant |es| == i && forall j :: 0 <= j < i ==> es[j] == Candidates(s.rows, keys, column)[j]
    {
      ResolveIs(s, keys[i], column);
      es := es + [Entry(keys[i], Resolve(s, keys[i], column), i)];
    }
  }

  lemma CandidatesTyped(s: State, keys: seq<Key>, column: string) returns (t: Type)
    requires Core(s) && (forall i :: 0 <= i < |keys| ==> keys[i] in s.rows)
    requires HasColumn(s.columns, column)
    ensures Typed(Candidates(s.rows, keys, column), t) && Numbered(Candidates(s.rows, keys, column))
  {
    hide IndexesFit, OrderFits, ColumnsFit, Dense, FastSafe, HasType;
    var c :| 0 <= c < |s.columns| && s.columns[c].name == column;
    t := s.columns[c].typ;
    forall i | 0 <= i < |keys| ensures HasType(Candidates(s.rows, keys, column)[i].val, t) {
      assert RowFits(s.columns, keys[i], s.rows[keys[i]]);
    }
  }

  /** Not after, in the direction asked for and in plain terms. */
  ghost predicate NotAfter(a: Value, b: Value, descending: bool) { if descending then AtMost(b, a) else AtMost(a, b) }

  function ValueAt(rows: map<Key, Row>, k: Key, column: string): Value {
    if k in rows then Get(rows[k], column) else Null
  }

  /** The places of `keys`, each once, in the order of their values, and of ties in the order they have. */
  ghost predicate Arranges(p: seq<nat>, keys: seq<Key>, rows: map<Key, Row>, column: string, descending: bool) {
    && |p| == |keys| && (forall i :: 0 <= i < |p| ==> p[i] < |keys|)
    && forall i, j :: 0 <= i < j < |p| ==>
         var a, b := ValueAt(rows, keys[p[i]], column), ValueAt(rows, keys[p[j]], column);
         p[i] != p[j] && NotAfter(a, b, descending) && (NotAfter(b, a, descending) ==> p[i] < p[j])
  }

  lemma RankIs(a: Entry, b: Entry, descending: bool)
    requires Before(a, b, descending)
    ensures NotAfter(a.val, b.val, descending)
    ensures NotAfter(b.val, a.val, descending) ==> a.pos < b.pos
  {
    hide ValueLess, AtMost;
    OrderIs(a.val, b.val);
    OrderIs(b.val, a.val);
  }

  lemma SortArranges(keys: seq<Key>, rows: map<Key, Row>, column: string, descending: bool, t: Type)
    returns (p: seq<nat>)
    requires Typed(Candidates(rows, keys, column), t) && Numbered(Candidates(rows, keys, column))
    ensures Arranges(p, keys, rows, column, descending)
    ensures var all := StableSort(Candidates(rows, keys, column), descending);
            forall i :: 0 <= i < |all| ==> all[i].key == keys[p[i]]
  {
    hide Before, HasType, StableSort, NotAfter, ValueAt;
    var es := Candidates(rows, keys, column);
    var all := StableSort(es, descending);
    StableSortRanks(es, descending, t);
    p := seq(|all|, i requires 0 <= i < |all| => all[i].pos);
    forall i | 0 <= i < |all| ensures p[i] < |keys| && all[i] == es[p[i]] && all[i].key == keys[p[i]] {
      assert all[i] in multiset(all) && all[i] in multiset(es);
      var m :| 0 <= m < |es| && es[m] == all[i];
    }
    forall i | 0 <= i < |all| ensures all[i].val == ValueAt(rows, keys[p[i]], column) {
      CandidateAt(rows, keys, column, p[i]);
    }
    forall i, j | 0 <= i < j < |all|
      ensures var a, b := ValueAt(rows, keys[p[i]], column), ValueAt(rows, keys[p[j]], column);
              p[i] != p[j] && NotAfter(a, b, descending) && (NotAfter(b, a, descending) ==> p[i] < p[j])
    {
      RankIs(all[i], all[j], descending);
      NotBeforeSelf(all[i], descending);
    }
  }

  lemma CandidateAt(rows: map<Key, Row>, keys: seq<Key>, column: string, i: nat)
    requires i < |keys|
    ensures Candidates(rows, keys, column)[i].val == ValueAt(rows, keys[i], column)
  {
  }

  lemma NotBeforeSelf(a: Entry, descending: bool)
    ensures !Before(a, a, descending)
  {
    hide ValueLess, AtMost;
    OrderIs(a.val, a.val);
    assert AtMost(a.val, a.val) by { AtMostSelf(a.val); }
  }

  lemma AtMostSelf(a: Value)
    ensures AtMost(a, a)
  {
  }

  /** The first `cap` keys of such an arrangement, or all of them. */
  ghost predicate InOrder(out: seq<Key>, keys: seq<Key>, rows: map<Key, Row>, column: string, descending: bool,
                          cap: int) {
    exists p ::
      && Arranges(p, keys, rows, column, descending) && |out| == (if 0 <= cap < |keys| then cap else |keys|)
      && forall i :: 0 <= i < |out| ==> out[i] == keys[p[i]]
  }

  /** The stable sort of the candidates puts their keys in order. */
  lemma SortInOrder(keys: seq<Key>, rows: map<Key, Row>, column: string, descending: bool, cap: int, t: Type)
    requires Typed(Candidates(rows, keys, column), t) && Numbered(Candidates(rows, keys, column))
    ensures var all := StableSort(Candidates(rows, keys, column), descending);
            InOrder(KeysOf(if cap >= 0 then Best(all, cap) else all), keys, rows, column, descending, cap)
  {
    hide Typed, Numbered, StableSort, Candidates;
    var p := SortArranges(keys, rows, column, descending, t);
    var all := StableSort(Candidates(rows, keys, column), descending);
    var out := KeysOf(if cap >= 0 then Best(all, cap) else all);
    assert forall i :: 0 <= i < |out| ==> out[i] == all[i].key == keys[p[i]];
  }

  /** orderKeys: exactly the first `cap` keys of the full stable sort, or all of them; it fails exactly
      when `cap` is 0 and there is a key. */
  method OrderKeys(s: State, keys: seq<Key>, column: string, descending: bool, cap: int, sort: seq<Entry> -> seq<Entry>)
    returns (ok: bool, out: seq<Key>)
    requires Core(s) && FastOK(s) && HasColumn(s.columns, column) && Sorts(sort, descending)
    requires forall i :: 0 <= i < |keys| ==> keys[i] in s.rows
    ensures ok <==> cap != 0 || keys == []
    ensures var all := StableSort(Candidates(s.rows, keys, column), descending);
            ok ==> out == KeysOf(if cap >= 0 then Best(all, cap) else all)
    ensures ok ==> InOrder(out, keys, s.rows, column, descending, cap)
  {
    hide Core, FastOK, HasColumn, Sorts, Sorted, Typed, Numbered, StableSort, Candidates, InOrder;
    var es := Collect(s, keys, column);
    ghost var t := CandidatesTyped(s, keys, column);
    ghost var all := StableSort(es, descending);
    ghost var best := if cap >= 0 then Best(all, cap) else all;
    StableSortRanks(es, descending, t);
    SortInOrder(keys, s.rows, column, descending, cap, t);
    if cap >= 0 {
      Prefix(all, if cap < |all| then cap else |all|, descending, t);
    }
    if 0 <= cap < |es| {
      ok, es := TopK(es, cap, descending, t);
      if !ok {
        return false, [];
      }
    }
    SortGives(sort, es, best, descending, t);
    es := sort(es);
    out := [];
    for i := 0 to |es|
      invariant |out| == i && forall j :: 0 <= j < i ==> out[j] == es[j].key
    {
      out := out + [es[i].key];
    }
    return true, out;
  }
}
