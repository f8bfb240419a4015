/** Equality shortcuts of internal/engine/select.go: by primary key and by index, for SELECT and for
    COUNT(*), against the full scan. */
module Lookups {
  import opened Values
  import opened Literals
  import opened Storage
  import opened TableState
  import opened Conditions
  import opened Projection
  import opened Select
  import OrderBy

  /** The query has the one condition `column = expected`. */
  predicate IsEquality(q: Query, column: string, expected: Value) {
    q.where == Some([[Compare(column, Eq, expected)]])
  }

  lemma EqualityMeans(row: Row, q: Query, column: string, expected: Value)
    requires IsEquality(q, column, expected)
    ensures Wanted(row, q) <==> Get(row, column) == expected
  {
    var cond := q.where.value;
    assert cond[0] == [Compare(column, Eq, expected)];
    if Get(row, column) == expected {
      assert GroupHolds(row, cond[0]);
    } else {
      assert !TermHolds(Get(row, cond[0][0].column), cond[0][0]);
    }
  }

  /** What a literal can become for a column: a value of its type, or text that does not parse. */
  predicate FromLiteral(expected: Value, typ: Type) {
    HasType(expected, typ) || (expected.Text? && ParseVal(expected.s, typ).Err?)
  }

  lemma LiteralsAre(raw: string, typ: Type)
    ensures FromLiteral(LiteralValue(raw, typ), typ)
  {
    hide TrimSpace, ParseInt, ParseBool, UnquoteLiteral, IsNullWord;
  }

  /** Integers fit their 64 bits. */
  ghost predicate Machine(s: State) {
    forall k, c | k in s.rows && c in s.rows[k] :: s.rows[k][c].Int? ==> InRange(s.rows[k][c].n)
  }

  /** Sharing a rendering with a literal means being equal to it, but for NULL and the text NULL. */
  lemma SameKey(v: Value, expected: Value, typ: Type)
    requires HasType(v, typ) && FromLiteral(expected, typ) && (v.Int? ==> InRange(v.n))
    ensures ValueKey(v) == ValueKey(expected) <==> v == expected || Confused(v, expected)
  {
    if HasType(expected, typ) {
      KeyInjective(v, expected, typ);
    } else if ValueKey(v) == ValueKey(expected) {
      Renders(v, typ);
    }
  }

  /** A stored value's rendering parses. */
  lemma Renders(v: Value, typ: Type)
    requires HasType(v, typ) && (v.Int? ==> InRange(v.n))
    ensures ParseVal(ValueKey(v), typ).Ok?
  {
    if v.Int? {
      var s := FormatInt(v.n);
      IntRoundTrip(v.n);
      assert forall i :: 0 <= i < |s| ==> s[i] == '-' || IsDigit(s[i]);
      assert !IsSpace(s[0]) && !IsSpace(s[|s| - 1]);
      hide FormatInt, ParseInt, IsSpace, IsNullWord;
      TrimTrimmed(s);
    } else if !v.Text? {
      TrimTrimmed(ValueKey(v));
    }
  }

  // -------------------------------------------------------- filtering a set

  /** The keys of the rows a query wants. */
  function Hits(s: State, q: Query): set<Key> { set k | k in s.rows && Wanted(s.rows[k], q) }

  lemma {:induction false} FilteredMembers(keys: seq<Key>, rows: map<Key, Row>, q: Query)
    ensures forall k :: k in Filtered(keys, rows, q) <==> k in keys && k in rows && Wanted(rows[k], q)
    ensures NoDup(keys) ==> NoDup(Filtered(keys, rows, q))
    decreases |keys|
  {
    hide Wanted, NoDup;
    if keys != [] {
      var n := |keys| - 1;
      FilteredMembers(keys[..n], rows, q);
      assert keys == keys[..n] + [keys[n]];
      NoDupSnoc(keys[..n], keys[n]);
      NoDupSnoc(Filtered(keys[..n], rows, q), keys[n]);
      assert Filtered(keys[..n], rows, q) + [] == Filtered(keys[..n], rows, q);
    } else {
      NoKeyTwice();
    }
  }

  lemma NoKeyTwice()
    ensures NoDup<Key>([])
  {
  }

  /** The full scan finds each wanted row once. */
  lemma ScanFinds(s: State, q: Query)
    requires Core(s)
    ensures var found := Filtered(Live(s), s.rows, q);
            NoDup(found) && (forall k :: k in found <==> k in Hits(s, q)) && |found| == |Hits(s, q)|
  {
    hide Filtered, Keep, Wanted, RowsFit, IndexesFit, FastSafe, ColumnsFit, Dense, HasColumn, NoDup;
    LiveCount(s.order, s.rows, s.dead);
    FilteredMembers(Live(s), s.rows, q);
    NoDupCount(Filtered(Live(s), s.rows, q), Hits(s, q));
  }

  /** COUNT(*) without a condition is the number of rows, tombstones left out. */
  lemma CountAll(s: State, q: Query)
    requires Core(s) && q.where.None?
    ensures |Filtered(Live(s), s.rows, q)| == |s.rows|
  {
    hide Core, Filtered, Keep;
    ScanFinds(s, q);
    assert Hits(s, q) == s.rows.Keys;
  }

  // --------------------------------------------------------- by primary key

  /** The row stored under the rendering of the literal, unverified. */
  method KeyLookup(s: State, q: Query, expected: Value) returns (res: Result<seq<Line>>)
    requires Core(s) && FastOK(s) && QueryFits(q, s.columns)
    ensures var key := ValueKey(expected);
            res == Answer(if key in s.rows then [LineAt(s.rows, key, q.names)] else [], q)
  {
    hide Core, FastOK, LineAt, HasColumn, Compiled, ValueKey;
    var key, rows: seq<Line> := ValueKey(expected), [];
    if key in s.rows {
      var line := LineOf(s, key, q.names);
      rows := [line];
    }
    if q.limit == 0 {
      rows := [];
    }
    return Ok(Drop(rows, q.offset));
  }

  /** The lookup takes NULL for the text NULL, or the other way round. */
  predicate Mistakes(s: State, expected: Value) {
    ValueKey(expected) in s.rows && Confused(Get(s.rows[ValueKey(expected)], Primary(s.columns)), expected)
  }

  lemma KeyHits(s: State, q: Query, expected: Value, i: nat)
    requires Core(s) && Machine(s) && i < |s.columns| && s.columns[i].primary && FromLiteral(expected, s.columns[i].typ)
    requires IsEquality(q, s.columns[i].name, expected)
    ensures var key := ValueKey(expected);
            Hits(s, q) == if key in s.rows && !Mistakes(s, expected) then {key} else {}
  {
    hide Core, Machine, FromLiteral, HasType, ValueKey, Wanted, Primary;
    var key, pk := ValueKey(expected), s.columns[i].name;
    PrimaryOf(s, i);
    forall k | k in s.rows ensures Wanted(s.rows[k], q) <==> k == key && !Mistakes(s, expected) {
      var v := Get(s.rows[k], pk);
      EqualityMeans(s.rows[k], q, pk, expected);
      KeyedBy(s, k, i);
      SameKey(v, expected, s.columns[i].typ);
    }
  }

  /** The lookup finds what the scan finds, exactly when it does not mistake NULL and the text NULL. */
  lemma KeyLookupIff(s: State, q: Query, expected: Value, i: nat)
    requires Core(s) && Machine(s) && i < |s.columns| && s.columns[i].primary && FromLiteral(expected, s.columns[i].typ)
    requires IsEquality(q, s.columns[i].name, expected)
    ensures var key := ValueKey(expected);
            Filtered(Live(s), s.rows, q) == (if key in s.rows then [key] else []) <==> !Mistakes(s, expected)
  {
    KeyHits(s, q, expected, i);
    ScanFinds(s, q);
    hide *;
    var found, key := Filtered(Live(s), s.rows, q), ValueKey(expected);
    if Mistakes(s, expected) {
      assert |found| == 0 && key in s.rows by { MistakeIsThere(s, expected); }
    } else if key in s.rows {
      assert |found| == 1 && found[0] in found;
    }
  }

  lemma MistakeIsThere(s: State, expected: Value)
    requires Mistakes(s, expected)
    ensures ValueKey(expected) in s.rows
  {
  }

  lemma PrimaryOf(s: State, i: nat)
    requires Core(s) && i < |s.columns| && s.columns[i].primary
    ensures Primary(s.columns) == s.columns[i].name
  {
    PrimaryAt(s.columns, i);
  }

  lemma KeyedBy(s: State, k: Key, i: nat)
    requires Core(s) && Machine(s) && i < |s.columns| && s.columns[i].primary && k in s.rows
    ensures var v := Get(s.rows[k], s.columns[i].name);
            ValueKey(v) == k && HasType(v, s.columns[i].typ) && (v.Int? ==> InRange(v.n))
  {
    PrimaryOf(s, i);
    assert RowFits(s.columns, k, s.rows[k]);
    assert s.columns[i].name != "";
  }

  /** COUNT(*) by primary key is right in the same cases. */
  lemma CountKeyIff(s: State, q: Query, expected: Value, i: nat)
    requires Core(s) && Machine(s) && i < |s.columns| && s.columns[i].primary && FromLiteral(expected, s.columns[i].typ)
    requires IsEquality(q, s.columns[i].name, expected)
    ensures |Filtered(Live(s), s.rows, q)| == (if ValueKey(expected) in s.rows then 1 else 0) <==>
            !Mistakes(s, expected)
  {
    KeyHits(s, q, expected, i);
    ScanFinds(s, q);
    hide *;
    if Mistakes(s, expected) { MistakeIsThere(s, expected); }
  }

  // ---------------------------------------------------------------- by index

  function Bucket(idx: Index, value: string): set<Key> { if value in idx then idx[value] else {} }

  /** Every wanted row is in the bucket of the literal. */
  lemma HitsInBucket(s: State, q: Query, column: string, expected: Value)
    requires Core(s) && column in s.indexes && IsEquality(q, column, expected)
    ensures Hits(s, q) <= Bucket(s.indexes[column], ValueKey(expected)) <= s.rows.Keys
  {
    hide RowsFit, FastSafe, ColumnsFit, OrderFits, HasColumn, ValueKey, Wanted;
    var idx, value := s.indexes[column], ValueKey(expected);
    forall k | k in Bucket(idx, value) ensures k in s.rows { assert InBucket(idx, value, k); }
    forall k | k in Hits(s, q) ensures k in Bucket(idx, value) {
      EqualityMeans(s.rows[k], q, column, expected);
      assert InBucket(idx, value, k);
    }
  }

  /** One candidate verified, on the array when it holds the key and the term was resolved. */
  method Verify(s: State, q: Query, k: Key, term: Option<FastTerm>) returns (b: bool)
    requires Core(s) && FastOK(s) && k in s.rows && QueryFits(q, s.columns) && TermIs(term, q, s.columns)
             && q.where.Some?
    ensures b == Wanted(s.rows[k], q)
  {
    hide RowsFit, IndexesFit, OrderFits, ColumnsFit, Dense, PositionsFit, Project, FastKeys, HasColumn, Satisfies,
      Compiled;
    if term.Some? {
      if k in s.fastPos && s.fastPos[k] < |s.fast| && s.fast[s.fastPos[k]].key != "" {
        b := WantedFast(s.fast[s.fastPos[k]].values, s.colPos, q, term, s.columns, s.rows[k]);
        return;
      }
      ghost var column :| TermFits(term.value, s.columns, column)
        && q.where == Some([[Compare(column, Eq, term.value.expected)]]);
      EqualityMeans(s.rows[k], q, column, term.value.expected);
      return Get(s.rows[k], s.columns[term.value.index].name) == term.value.expected;
    }
    b := MatchesMap(s.rows[k], q.where.value);
  }

  /** countIndexEquality: the bucket, candidate by candidate, in any order. */
  method CountIndex(s: State, q: Query, column: string, expected: Value, term: Option<FastTerm>) returns (count: nat)
    requires Core(s) && FastOK(s) && QueryFits(q, s.columns) && TermIs(term, q, s.columns)
    requires column in s.indexes && IsEquality(q, column, expected)
    ensures count == |Filtered(Live(s), s.rows, q)|
  {
    hide Core, FastOK, ValueKey, Wanted, QueryFits, TermIs, Filtered, Keep, Hits;
    HitsInBucket(s, q, column, expected);
    var pending := Bucket(s.indexes[column], ValueKey(expected));
    ghost var found: set<Key> := {};
    count := 0;
    while pending != {}
      invariant pending <= s.rows.Keys && count == |found| && found !! pending && found <= Hits(s, q) <= found + pending
      decreases |pending|
    {
      var k :| k in pending;
      var b := Verify(s, q, k, term);
      IsHit(s, q, k);
      if b {
        count, found := count + 1, found + {k};
      }
      pending := pending - {k};
    }
    ScanFinds(s, q);
    assert found == Hits(s, q);
  }

  /** An indexed SELECT under way: `keys` are wanted rows, and every wanted row outside `pending` is
      among them, or under DISTINCT its line is. */
  ghost predicate Gathered(s: State, q: Query, keys: seq<Key>, seen: set<string>, pending: set<Key>) {
    && NoDup(keys) && (forall k :: k in keys ==> k in Hits(s, q) && k !in pending)
    && (q.distinct ==> NoDup(Lines(keys, s.rows, q.names)) && Seen(seen, Lines(keys, s.rows, q.names)))
    && (forall k :: k in Hits(s, q) && k !in pending ==>
          if q.distinct then LineAt(s.rows, k, q.names) in Lines(keys, s.rows, q.names) else k in keys)
  }

  lemma GatherNothing(s: State, q: Query, bucket: set<Key>)
    requires Hits(s, q) <= bucket
    ensures Gathered(s, q, [], {}, bucket)
  {
    hide Hits, LineAt;
    LinesOfNothing(s.rows, q.names);
    SeenNothing();
  }

  lemma GatherSkip(s: State, q: Query, keys: seq<Key>, seen: set<string>, pending: set<Key>, k: Key)
    requires Gathered(s, q, keys, seen, pending) && k in pending && k !in Hits(s, q)
    ensures Gathered(s, q, keys, seen, pending - {k})
  {
    hide Hits, LineAt, Lines, NoDup, Seen;
  }

  lemma GatherLine(s: State, q: Query, keys: seq<Key>, seen: set<string>, pending: set<Key>, k: Key, isNew: bool,
                   after: set<string>)
    requires Gathered(s, q, keys, seen, pending) && k in pending && k in Hits(s, q)
    requires isNew <==> !(q.distinct && LineAt(s.rows, k, q.names) in Lines(keys, s.rows, q.names))
    requires q.distinct ==>
             Seen(after, if isNew then Lines(keys, s.rows, q.names) + [LineAt(s.rows, k, q.names)]
                  else Lines(keys, s.rows, q.names))
    ensures Gathered(s, q, if isNew then keys + [k] else keys, after, pending - {k})
  {
    hide Hits, LineAt, Lines, NoDup, Seen;
    NoDupSnoc(keys, k);
    NoDupSnoc(Lines(keys, s.rows, q.names), LineAt(s.rows, k, q.names));
    LinesSnoc(keys, k, s.rows, q.names);
  }

  lemma GatheredLines(s: State, q: Query, keys: seq<Key>, seen: set<string>, pending: set<Key>)
    requires Gathered(s, q, keys, seen, pending)
    ensures q.distinct ==> Seen(seen, Lines(keys, s.rows, q.names))
  {
  }

  /** What the full scan keeps before LIMIT. */
  function Scanned(s: State, q: Query): seq<Key> {
    var found := Filtered(Live(s), s.rows, q);
    if q.distinct then Firsts(found, s.rows, q.names) else found
  }

  /** An indexed SELECT against the full scan: part of the same rows, all of them when `whole`; under
      DISTINCT the same lines, each once, though perhaps from other rows. */
  ghost predicate SameRows(s: State, q: Query, keys: seq<Key>, whole: bool) {
    && NoDup(keys) && (forall k :: k in keys ==> k in Filtered(Live(s), s.rows, q))
    && (q.distinct ==> NoDup(Lines(keys, s.rows, q.names)))
    && (whole ==>
          if q.distinct then
            forall line :: line in Lines(keys, s.rows, q.names) <==> line in Lines(Scanned(s, q), s.rows, q.names)
          else forall k :: k in keys <==> k in Scanned(s, q))
    && (if whole then |keys| == |Scanned(s, q)| else |keys| <= |Scanned(s, q)|)
  }

  lemma LineFrom(keys: seq<Key>, rows: map<Key, Row>, names: seq<string>, line: Line) returns (k: Key)
    requires line in Lines(keys, rows, names)
    ensures k in keys && LineAt(rows, k, names) == line
  {
    hide LineAt;
    var i :| 0 <= i < |keys| && Lines(keys, rows, names)[i] == line;
    k := keys[i];
  }

  lemma LinesWithin(a: seq<Key>, b: seq<Key>, rows: map<Key, Row>, names: seq<string>)
    requires forall k :: k in a ==> k in b
    ensures forall line :: line in Lines(a, rows, names) ==> line in Lines(b, rows, names)
  {
    hide LineAt;
    forall line | line in Lines(a, rows, names) ensures line in Lines(b, rows, names) {
      var k := LineFrom(a, rows, names, line);
      var j :| 0 <= j < |b| && b[j] == k;
      assert Lines(b, rows, names)[j] == line;
    }
  }

  lemma GatheredRows(s: State, q: Query, keys: seq<Key>, seen: set<string>, pending: set<Key>)
    requires Core(s) && Gathered(s, q, keys, seen, pending)
    ensures SameRows(s, q, keys, pending == {})
  {
    hide Core, Keep, Filtered, Firsts, Hits, LineAt, NoDup, Seen, Lines;
    var found := Filtered(Live(s), s.rows, q);
    ScanFinds(s, q);
    FirstsAreDistinct(found, s.rows, q.names);
    if q.distinct {
      var mine, all := Lines(keys, s.rows, q.names), Lines(Scanned(s, q), s.rows, q.names);
      LinesWithin(keys, found, s.rows, q.names);
      if pending == {} {
        forall line | line in all ensures line in mine {
          var k := LineFrom(found, s.rows, q.names, line);
          assert k in Hits(s, q);
        }
      }
      Counts(mine, all);
    } else {
      Counts(keys, found);
    }
  }

  lemma Counts<T>(a: seq<T>, b: seq<T>)
    requires NoDup(a) && NoDup(b) && forall x :: x in a ==> x in b
    ensures |a| <= |b| && ((forall x :: x in b ==> x in a) ==> |a| == |b|)
  {
    var sa, sb := set x | x in a, set x | x in b;
    NoDupCount(a, sa);
    NoDupCount(b, sb);
    assert sa <= sb && sb == sa + (sb - sa);
  }

  /** Whatever is still pending, the candidates can be completed to a whole answer. */
  lemma {:induction false} Complete(s: State, q: Query, keys: seq<Key>, seen: set<string>, pending: set<Key>)
    returns (all: seq<Key>)
    requires Core(s) && Gathered(s, q, keys, seen, pending)
    ensures keys <= all && SameRows(s, q, all, true) && (pending == {} ==> all == keys)
    decreases |pending|
  {
    hide Core, Gathered, Hits, SameRows, LineAt, Lines, ProjectionKey, Seen;
    if pending == {} {
      GatheredRows(s, q, keys, seen, pending);
      return keys;
    }
    var k :| k in pending;
    if k !in Hits(s, q) {
      GatherSkip(s, q, keys, seen, pending, k);
      all := Complete(s, q, keys, seen, pending - {k});
    } else {
      var lines, line := Lines(keys, s.rows, q.names), LineAt(s.rows, k, q.names);
      GatheredLines(s, q, keys, seen, pending);
      if q.distinct && line in lines {
        GatherLine(s, q, keys, seen, pending, k, false, seen);
        all := Complete(s, q, keys, seen, pending - {k});
      } else {
        if q.distinct { SeenMore(seen, lines, line); }
        GatherLine(s, q, keys, seen, pending, k, true, seen + {ProjectionKey(line)});
        all := Complete(s, q, keys + [k], seen + {ProjectionKey(line)}, pending - {k});
      }
    }
  }

  /** The candidates of an indexed SELECT: the bucket in any order, verified, up to `cap` of them when it
      is not negative. They begin a whole answer. */
  method IndexKeys(s: State, q: Query, column: string, expected: Value, term: Option<FastTerm>, cap: int)
    returns (keys: seq<Key>, ghost all: seq<Key>)
    requires Core(s) && FastOK(s) && QueryFits(q, s.columns) && TermIs(term, q, s.columns)
    requires column in s.indexes && IsEquality(q, column, expected)
    ensures SameRows(s, q, all, true) && keys == Take(all, cap)
  {
    hide Core, FastOK, ValueKey, Wanted, HasColumn, Compiled, TermIs, Gathered, Hits, SameRows, LineAt, Lines;
    HitsInBucket(s, q, column, expected);
    var pending, seen: set<string> := Bucket(s.indexes[column], ValueKey(expected)), {};
    keys := [];
    GatherNothing(s, q, pending);
    while pending != {} && (cap < 0 || |keys| < cap)
      invariant pending <= s.rows.Keys && Gathered(s, q, keys, seen, pending) && (cap < 0 || |keys| <= cap)
      decreases |pending|
    {
      var k :| k in pending;
      var b := Verify(s, q, k, term);
      IsHit(s, q, k);
      if b {
        var line := LineOf(s, k, q.names);
        GatheredLines(s, q, keys, seen, pending);
        var isNew, after := AddLine(seen, line, q.distinct, Lines(keys, s.rows, q.names));
        GatherLine(s, q, keys, seen, pending, k, isNew, after);
        seen := after;
        if isNew {
          keys := keys + [k];
        }
      } else {
        GatherSkip(s, q, keys, seen, pending, k);
      }
      pending := pending - {k};
    }
    all := Complete(s, q, keys, seen, pending);
  }

  /** The index plan: the answer of the plan over the order, on the rows of the full scan in some order,
      each once, or under DISTINCT on its lines, each once. */
  method IndexScan(s: State, q: Query, column: string, expected: Value, term: Option<FastTerm>,
                   ord: Option<Ordering>, sort: seq<OrderBy.Entry> -> seq<OrderBy.Entry>)
    returns (out: Outcome, ghost all: seq<Key>)
    requires Core(s) && FastOK(s) && QueryFits(q, s.columns) && TermIs(term, q, s.columns) && InBounds(q, |s.order|)
    requires column in s.indexes && IsEquality(q, column, expected)
    requires ord.Some? ==> HasColumn(s.columns, ord.value.column) && OrderBy.Sorts(sort, ord.value.descending)
    ensures SameRows(s, q, all, true)
    ensures out == Delivered(Lines(Sorted(all, s.rows, ord), s.rows, q.names), q, ord.Some?, true)
  {
    hide Core, FastOK, HasColumn, Compiled, RowCap, TermIs, SameRows, Lines, Sorted, OrderBy.Sorts, Delivered;
    var keys;
    keys, all := IndexKeys(s, q, column, expected, term, if ord.Some? then -1 else RowCap(q));
    Within(s, q, all);
    out := Deliver(s, q, ord, sort, keys, all, true);
  }

  lemma SameElements<T>(a: seq<T>, b: seq<T>)
    requires NoDup(a) && NoDup(b) && forall x :: x in a <==> x in b
    ensures multiset(a) == multiset(b)
  {
    forall x ensures multiset(a)[x] == multiset(b)[x] {
      if x in a { NoDupMultiset(a, x); NoDupMultiset(b, x); }
    }
  }

  lemma {:induction false} LinesPermuted(a: seq<Key>, b: seq<Key>, rows: map<Key, Row>, names: seq<string>)
    requires multiset(a) == multiset(b)
    ensures multiset(Lines(a, rows, names)) == multiset(Lines(b, rows, names))
    decreases |a|
  {
    hide LineAt, Lines;
    assert |a| == |multiset(a)| == |multiset(b)| == |b|;
    if a != [] {
      var n := |a| - 1;
      var k := a[n];
      assert a == a[..n] + [k] && k in multiset(b);
      var j :| 0 <= j < |b| && b[j] == k;
      OneOut(b, j);
      assert multiset(a[..n]) == multiset(a) - multiset{k};
      LinesPermuted(a[..n], b[..j] + b[j + 1..], rows, names);
      LinesSnoc(a[..n], k, rows, names);
      LinesAround(b, j, rows, names);
    } else {
      assert a == b;
    }
  }

  lemma OneOut<T>(b: seq<T>, j: nat)
    requires j < |b|
    ensures multiset(b[..j] + b[j + 1..]) == multiset(b) - multiset{b[j]}
  {
    assert b == b[..j] + [b[j]] + b[j + 1..];
  }

  lemma LinesAround(b: seq<Key>, j: nat, rows: map<Key, Row>, names: seq<string>)
    requires j < |b|
    ensures multiset(Lines(b, rows, names))
            == multiset(Lines(b[..j] + b[j + 1..], rows, names)) + multiset{LineAt(rows, b[j], names)}
  {
    hide LineAt;
    var before, after := Lines(b[..j], rows, names), Lines(b[j + 1..], rows, names);
    assert Lines(b, rows, names) == before + [LineAt(rows, b[j], names)] + after;
    assert Lines(b[..j] + b[j + 1..], rows, names) == before + after;
  }

  /** The lines of the index plan are those of the full scan, each as often. */
  lemma SameMultiset(s: State, q: Query, all: seq<Key>)
    requires Core(s) && SameRows(s, q, all, true)
    ensures multiset(Lines(all, s.rows, q.names)) == multiset(Lines(Scanned(s, q), s.rows, q.names))
  {
    hide Core, Keep, Filtered, Firsts, LineAt, NoDup, Lines;
    ScanFinds(s, q);
    FirstsAreDistinct(Filtered(Live(s), s.rows, q), s.rows, q.names);
    if q.distinct {
      SameElements(Lines(all, s.rows, q.names), Lines(Scanned(s, q), s.rows, q.names));
    } else {
      SameElements(all, Scanned(s, q));
      LinesPermuted(all, Scanned(s, q), s.rows, q.names);
    }
  }

  /** The rows of an answer are rows of the table, and not more than its order has. */
  lemma Within(s: State, q: Query, all: seq<Key>)
    requires Core(s) && SameRows(s, q, all, true)
    ensures |all| <= |s.order| && forall k :: k in all ==> k in s.rows
  {
    hide Core, Keep, Filtered, Firsts, LineAt, NoDup, Lines;
    ScanFinds(s, q);
    forall k | k in all ensures k in s.rows { IsHit(s, q, k); }
    SelectedIs(s, q);
    ChosenMembers(s.order, s.rows, q);
    hide SameRows;
    ScannedIs(s, q);
  }

  lemma ScannedIs(s: State, q: Query)
    requires Core(s)
    ensures Scanned(s, q) == Chosen(s.order, s.rows, q)
  {
    hide Core, Keep, Filtered, Firsts, Chosen;
    SelectedIs(s, q);
  }

  lemma IsHit(s: State, q: Query, k: Key)
    ensures k in Hits(s, q) <==> k in s.rows && Wanted(s.rows[k], q)
  {
  }

  // ------------------------------------------------- the mistake is reachable

  const WORD := [Column("k", TextType, true)]

  const NAMED: Row := map["k" := Text("NULL")]

  /** A table whose one row has the text NULL for its key. */
  const ONE: State := State(WORD, map["NULL" := NAMED], ["NULL"], map[], [], map[], map[], 0, 0, map[])

  lemma OneIsCore()
    ensures Core(ONE) && FastOK(ONE) && Machine(ONE) && Live(ONE) == ["NULL"]
  {
    assert ONE.order[..0] == [];
    assert Keep(ONE.order, ONE.rows.Keys) == ["NULL"];
    WordFits();
  }

  lemma WordFits()
    ensures ColumnsFit(WORD) && Primary(WORD) == "k" && RowFits(WORD, "NULL", NAMED)
  {
  }

  /** The literal 'NULL' in VALUES is the text, and after an equals sign it is NULL. */
  lemma QuotedNull()
    ensures ParseVal("'NULL'", TextType) == Ok(Text("NULL")) && LiteralValue("'NULL'", TextType) == Null
  {
    UnquotedNull();
    var quoted, word := "'NULL'", "NULL";
    assert !IsSpace(quoted[0]) && !IsSpace(quoted[|quoted| - 1]) && !IsSpace(word[0]) && !IsSpace(word[|word| - 1]);
    hide IsSpace, TrimSpace, UnquoteLiteral;
    TrimTrimmed(quoted);
    TrimTrimmed(word);
  }

  lemma UnquotedNull()
    ensures UnquoteLiteral("'NULL'") == "NULL"
  {
    hide UnquoteLiteral;
    UnquoteQuote("NULL");
    assert Quote("NULL") == "'NULL'" by { QuoteNull(); }
  }

  lemma QuoteNull()
    ensures Quote("NULL") == "'NULL'"
  {
    var s := "NULL";
    assert s[1..] == "ULL" && s[1..][1..] == "LL" && s[1..][1..][1..] == "L" && s[1..][1..][1..][1..] == "";
    assert Escape("L") == "L" && Escape("LL") == "LL" && Escape("ULL") == "ULL";
  }

  /** The row that `INSERT ... VALUES ('NULL')` stores is returned by `WHERE k = 'NULL'` through its key,
      and not found by the scan with the same condition. */
  lemma NullIsMistaken(q: Query)
    requires IsEquality(q, "k", LiteralValue("'NULL'", TextType))
    ensures ParseVal("'NULL'", TextType) == Ok(NAMED["k"]) && Core(ONE) && FastOK(ONE)
    ensures ValueKey(LiteralValue("'NULL'", TextType)) in ONE.rows
    ensures Filtered(Live(ONE), ONE.rows, q) == []
  {
    QuotedNull();
    OneIsCore();
    hide Core, FastOK, Wanted;
    EqualityMeans(NAMED, q, "k", Null);
    assert Live(ONE)[..0] == [];
  }

  // ------------------------------------------------------------- bucket order

  /** Where OFFSET and LIMIT cut a result of `n` lines. */
  function From(q: Query, n: nat): nat { if q.offset < n then q.offset else n }

  function To(q: Query, n: nat): nat {
    if 0 <= q.limit && From(q, n) + q.limit < n then From(q, n) + q.limit else n
  }

  lemma AnswerIs(lines: seq<Line>, q: Query)
    ensures var lo, hi := From(q, |lines|), To(q, |lines|);
            lo <= hi <= |lines| && Answer(lines, q) == Bounded(lines[lo..hi], q.maxRows)
  {
    var lo, hi := From(q, |lines|), To(q, |lines|);
    assert Drop(lines, q.offset) == lines[lo..];
    assert Take(lines[lo..], q.limit) == lines[lo..hi];
  }

  /** Both the row-limit error, or the same lines as often. */
  ghost predicate SameLines(a: Result<seq<Line>>, b: Result<seq<Line>>) {
    if a.Ok? && b.Ok? then multiset(a.value) == multiset(b.value) else a.Err? && b.Err?
  }

  /** Whatever order the lines come in, the answer has the same lines. */
  ghost predicate OrderFree(lines: seq<Line>, q: Query) {
    forall other: seq<Line> :: multiset(other) == multiset(lines) ==> SameLines(Answer(other, q), Answer(lines, q))
  }

  ghost predicate OneLine(lines: seq<Line>) { forall i, j :: 0 <= i < j < |lines| ==> lines[i] == lines[j] }

  function Swapped(lines: seq<Line>, i: nat, j: nat): seq<Line>
    requires i < |lines| && j < |lines|
  {
    lines[i := lines[j]][j := lines[i]]
  }

  /** A line inside the cut and another one outside it can change places, and the answer shows it. */
  lemma SwapShows(lines: seq<Line>, lo: nat, hi: nat, i: nat, j: nat)
    requires lo <= i < hi <= |lines| && j < |lines| && !(lo <= j < hi) && lines[i] != lines[j]
    ensures multiset(Swapped(lines, i, j)) == multiset(lines)
    ensures multiset(Swapped(lines, i, j)[lo..hi]) != multiset(lines[lo..hi])
  {
    var other, part := Swapped(lines, i, j), lines[lo..hi];
    assert other[lo..hi] == part[i - lo := lines[j]];
    assert multiset(part[i - lo := lines[j]]) == multiset(part) - multiset{lines[i]} + multiset{lines[j]};
    assert multiset(part[i - lo := lines[j]])[lines[j]] == multiset(part)[lines[j]] + 1;
  }

  lemma InsideAndOutside(lines: seq<Line>, lo: nat, hi: nat) returns (i: nat, j: nat)
    requires lo < hi <= |lines| && (lo > 0 || hi < |lines|) && !OneLine(lines)
    ensures lo <= i < hi && j < |lines| && !(lo <= j < hi) && lines[i] != lines[j]
  {
    i := lo;
    j := if lo > 0 then 0 else hi;
    if lines[i] == lines[j] {
      var k :| 0 <= k < |lines| && lines[k] != lines[i] by { Other(lines, i); }
      if lo <= k < hi { i := k; } else { j := k; }
    }
  }

  lemma Other(lines: seq<Line>, i: nat)
    requires i < |lines| && !OneLine(lines)
    ensures exists k :: 0 <= k < |lines| && lines[k] != lines[i]
  {
    var a, b :| 0 <= a < b < |lines| && lines[a] != lines[b];
    if lines[a] == lines[i] { assert lines[b] != lines[i]; }
  }

  lemma WholeOrNone(lines: seq<Line>, other: seq<Line>, lo: nat, hi: nat)
    requires lo <= hi <= |lines| && multiset(other) == multiset(lines)
    requires lo == hi || (lo == 0 && hi == |lines|) || OneLine(lines)
    ensures |other| == |lines| && multiset(other[lo..hi]) == multiset(lines[lo..hi])
  {
    assert |multiset(other)| == |other| && |multiset(lines)| == |lines|;
    if lo == hi {
      assert other[lo..hi] == lines[lo..hi] == [];
    } else if lo == 0 && hi == |lines| {
      assert other[lo..hi] == other && lines[lo..hi] == lines;
    } else {
      forall k | 0 <= k < |other| ensures other[k] == lines[k] {
        assert other[k] in multiset(other) && other[k] in multiset(lines);
        var m :| 0 <= m < |lines| && lines[m] == other[k];
      }
      assert other == lines;
    }
  }

  /** The lines of an answer without ORDER BY do not depend on the order in which an index bucket is visited
      exactly when OFFSET and LIMIT cut away nothing or everything, or all lines are the same, or the row
      limit is exceeded anyway. */
  lemma AnyOrder(lines: seq<Line>, q: Query)
    ensures OrderFree(lines, q) <==>
              var lo, hi := From(q, |lines|), To(q, |lines|);
              lo == hi || (lo == 0 && hi == |lines|) || OneLine(lines) || Answer(lines, q).Err?
  {
    hide Answer;
    var lo, hi := From(q, |lines|), To(q, |lines|);
    AnswerIs(lines, q);
    if lo == hi || (lo == 0 && hi == |lines|) || OneLine(lines) || Answer(lines, q).Err? {
      forall other: seq<Line> | multiset(other) == multiset(lines)
        ensures SameLines(Answer(other, q), Answer(lines, q))
      {
        assert |multiset(other)| == |other| && |multiset(lines)| == |lines|;
        AnswerIs(other, q);
        if !Answer(lines, q).Err? { WholeOrNone(lines, other, lo, hi); }
      }
    } else {
      var i, j := InsideAndOutside(lines, lo, hi);
      var other := Swapped(lines, i, j);
      SwapShows(lines, lo, hi, i, j);
      AnswerIs(other, q);
      assert !SameLines(Answer(other, q), Answer(lines, q));
    }
  }

  /** So two runs of an indexed query that visit its bucket in different orders give the same lines there. */
  lemma BucketOrder(s: State, q: Query, all: seq<Key>, other: seq<Key>)
    requires Core(s) && SameRows(s, q, all, true) && SameRows(s, q, other, true)
    requires OrderFree(Lines(all, s.rows, q.names), q)
    ensures SameLines(Answer(Lines(other, s.rows, q.names), q), Answer(Lines(all, s.rows, q.names), q))
  {
    hide Core, SameRows, Lines, Answer, SameLines;
    SameMultiset(s, q, all);
    SameMultiset(s, q, other);
  }

  /** Of two rows, LIMIT 1 takes the one that comes first. */
  lemma FirstTaken(a: Line, b: Line, q: Query)
    requires a != b && q.limit == 1 && q.offset == 0 && q.maxRows == 0
    ensures Answer([a, b], q) == Ok([a]) && Answer([b, a], q) == Ok([b]) && !OrderFree([a, b], q)
  {
    hide Answer;
    AnswerIs([a, b], q);
    AnswerIs([b, a], q);
    assert [a, b][0..1] == [a] && [b, a][0..1] == [b];
    AnyOrder([a, b], q);
    assert [a, b][0] != [a, b][1];
  }
}
