/** VALUES payloads (internal/engine/insert.go) by position: where rows start and end, what the pieces of a row are, and
    exactly which payloads are taken. */
module Payloads {
  import opened Values
  import opened Literals
  import opened Storage
  import opened InsertValues

  // ------------------------------------------------------------------- rows

  /** Opening parentheses less closing ones, outside quotes. */
  function Nest(s: string): int {
    if s == "" then 0
    else
      var init, c := s[..|s| - 1], s[|s| - 1];
      Nest(init) + if Odd(init) then 0 else if c == '(' then 1 else if c == ')' then -1 else 0
  }

  /** A row starts behind this parenthesis. */
  predicate StartsAt(s: string, a: nat) { a < |s| && s[a] == '(' && !Odd(s[..a]) && Nest(s[..a]) == 0 }

  /** A row ends before this parenthesis. */
  predicate EndsAt(s: string, b: nat) { b < |s| && s[b] == ')' && !Odd(s[..b]) && Nest(s[..b]) == 1 }

  /** A row between `a` and `b`: the last parenthesis before `b` that starts one is at `a`. */
  ghost predicate RowAt(s: string, a: nat, b: nat) {
    StartsAt(s, a) && EndsAt(s, b) && a < b && forall k :: a < k < b ==> !StartsAt(s, k)
  }

  /** The open row, if there is one: where it started. */
  ghost predicate OpenAt(s: string, a: nat, at: Scan) {
    a < |s| && StartsAt(s, a) && (forall k :: a < k < |s| ==> !StartsAt(s, k)) && at.current == s[a + 1..]
  }

  lemma PrefixStarts(s: string, n: nat, k: nat)
    requires k < n <= |s|
    ensures StartsAt(s[..n], k) <==> StartsAt(s, k)
    ensures EndsAt(s[..n], k) <==> EndsAt(s, k)
  {
    assert s[..n][..k] == s[..k];
  }

  lemma {:induction false} DepthIs(s: string)
    ensures ScanRows(s).depth == Nest(s)
    decreases |s|
  {
    if s != "" { DepthIs(s[..|s| - 1]); }
  }

  /** `row` is the text between these parentheses. */
  ghost predicate Spans(s: string, span: (nat, nat), row: string) {
    RowAt(s, span.0, span.1) && row == s[span.0 + 1..span.1]
  }

  /** One span for each row, in order. */
  ghost predicate SpanEach(s: string, spans: seq<(nat, nat)>, rows: seq<string>) {
    && |spans| == |rows| && (forall j :: 0 <= j < |spans| ==> Spans(s, spans[j], rows[j]))
    && forall i, j :: 0 <= i < j < |spans| ==> spans[i].1 < spans[j].1
  }

  /** Every parenthesis that ends a row is the end of one. */
  ghost predicate AllEnds(s: string, spans: seq<(nat, nat)>) {
    forall b :: EndsAt(s, b) ==> exists j :: 0 <= j < |spans| && spans[j].1 == b
  }

  /** The rows of a payload by position: one for each parenthesis that ends one, in order, and each is the text
      between the parentheses. */
  lemma {:induction false} RowsByPlace(s: string) returns (spans: seq<(nat, nat)>)
    ensures SpanEach(s, spans, ScanRows(s).rows) && AllEnds(s, spans)
    decreases |s|
  {
    hide Spans, EndsAt, ScanRows;
    if s == "" {
      spans := [];
      NothingScanned();
      forall b ensures !EndsAt(s, b) { NothingEnds(b); }
    } else {
      var n := |s| - 1;
      var before := RowsByPlace(s[..n]);
      forall j | 0 <= j < |before| ensures Spans(s, before[j], ScanRows(s[..n]).rows[j]) && before[j].1 < n {
        SpanLater(s, before[j], ScanRows(s[..n]).rows[j]);
      }
      if EndsAt(s, n) {
        var a := Closed(s);
        spans := before + [(a, n)];
        assert Spans(s, (a, n), s[a + 1..n]) by { SpanIs(s, a, n); }
      } else {
        spans := before;
        NotClosed(s);
      }
      EndsLater(s, before, spans);
    }
  }

  lemma SpanIs(s: string, a: nat, b: nat)
    requires RowAt(s, a, b)
    ensures Spans(s, (a, b), s[a + 1..b])
  {
    hide StartsAt;
  }

  lemma SpanLater(s: string, span: (nat, nat), row: string)
    requires s != "" && Spans(s[..|s| - 1], span, row)
    ensures Spans(s, span, row) && span.1 < |s| - 1
  {
    hide RowAt;
    RowLater(s, span.0, span.1);
  }

  lemma EndsLater(s: string, before: seq<(nat, nat)>, spans: seq<(nat, nat)>)
    requires s != "" && AllEnds(s[..|s| - 1], before) && before <= spans
    requires EndsAt(s, |s| - 1) ==> |spans| == |before| + 1 && spans[|before|].1 == |s| - 1
    ensures AllEnds(s, spans)
  {
    hide EndsAt;
    var n := |s| - 1;
    forall b: nat | EndsAt(s, b) ensures exists j :: 0 <= j < |spans| && spans[j].1 == b {
      EndsInside(s, b);
      if b < n {
        PrefixStarts(s, n, b);
        var j :| 0 <= j < |before| && before[j].1 == b;
        assert spans[j].1 == b;
      } else {
        assert spans[|before|].1 == b;
      }
    }
  }

  lemma NothingScanned()
    ensures ScanRows("").rows == [] && ScanRows("").depth == 0
  {
  }

  lemma NothingEnds(b: nat)
    ensures !EndsAt("", b)
  {
  }

  lemma EndsInside(s: string, b: nat)
    requires EndsAt(s, b)
    ensures b < |s|
  {
  }

  lemma RowLater(s: string, a: nat, b: nat)
    requires s != "" && RowAt(s[..|s| - 1], a, b)
    ensures RowAt(s, a, b) && a < b < |s| - 1 && s[..|s| - 1][a + 1..b] == s[a + 1..b]
  {
    hide StartsAt, EndsAt;
    var n := |s| - 1;
    assert b < n by { EndsInside(s[..n], b); }
    PrefixStarts(s, n, a);
    PrefixStarts(s, n, b);
    forall k | a < k < b ensures !StartsAt(s, k) { PrefixStarts(s, n, k); }
  }

  /** At the end of a row the text since its start is the row. */
  lemma Closed(s: string) returns (a: nat)
    requires s != "" && EndsAt(s, |s| - 1)
    ensures RowAt(s, a, |s| - 1)
    ensures ScanRows(s).rows == ScanRows(s[..|s| - 1]).rows + [s[a + 1..|s| - 1]]
  {
    var n := |s| - 1;
    var init := s[..n];
    DepthIs(init);
    a := Opened(init);
    hide ScanRows, Nest, Odd;
    assert ScanRows(s) == ScanChar(ScanRows(init), Odd(init), s[n]) by { Unfolds(s); }
    PrefixStarts(s, n, a);
    forall k | a < k < n ensures !StartsAt(s, k) { PrefixStarts(s, n, k); }
    assert init[a + 1..] == s[a + 1..n];
  }

  lemma Unfolds(s: string)
    requires s != ""
    ensures var init, c := s[..|s| - 1], s[|s| - 1];
            && ScanRows(s) == ScanChar(ScanRows(init), Odd(init), c)
            && Nest(s) == Nest(init) + if Odd(init) then 0 else if c == '(' then 1 else if c == ')' then -1 else 0
  {
  }

  lemma NotClosed(s: string)
    requires s != "" && !EndsAt(s, |s| - 1)
    ensures ScanRows(s).rows == ScanRows(s[..|s| - 1]).rows
  {
    hide Odd, Nest, ScanRows;
    DepthIs(s[..|s| - 1]);
    Unfolds(s);
  }

  /** A row that starts here. */
  lemma JustOpened(s: string)
    requires s != "" && StartsAt(s, |s| - 1)
    ensures OpenAt(s, |s| - 1, ScanRows(s))
  {
    hide Nest, Odd, ScanRows;
    DepthIs(s[..|s| - 1]);
    Unfolds(s);
    assert s[|s|..] == "";
  }

  /** A row that goes on: it was open before, and has one more character. */
  lemma GoesOn(s: string)
    requires s != "" && !StartsAt(s, |s| - 1) && ScanRows(s).depth >= 1
    ensures var init := s[..|s| - 1];
            ScanRows(init).depth >= 1 && ScanRows(s).current == ScanRows(init).current + [s[|s| - 1]]
  {
    hide Nest, Odd, ScanRows;
    DepthIs(s[..|s| - 1]);
    Unfolds(s);
  }

  lemma OpenLater(s: string, a: nat)
    requires s != "" && !StartsAt(s, |s| - 1) && OpenAt(s[..|s| - 1], a, ScanRows(s[..|s| - 1]))
    requires ScanRows(s).current == ScanRows(s[..|s| - 1]).current + [s[|s| - 1]]
    ensures OpenAt(s, a, ScanRows(s))
  {
    hide ScanRows, StartsAt;
    var n := |s| - 1;
    PrefixStarts(s, n, a);
    forall k | a < k < |s| ensures !StartsAt(s, k) {
      if k < n { PrefixStarts(s, n, k); }
    }
    TailGrows(s, a);
  }

  lemma TailGrows(s: string, a: nat)
    requires a + 1 < |s|
    ensures s[a + 1..] == s[..|s| - 1][a + 1..] + [s[|s| - 1]]
  {
  }

  /** Inside a row there is a start, and the text since the last one is the current text. */
  lemma {:induction false} Opened(s: string) returns (a: nat)
    requires ScanRows(s).depth >= 1
    ensures OpenAt(s, a, ScanRows(s))
    decreases |s|
  {
    hide *;
    assert s != "" by { if s == "" { NothingScanned(); } }
    if StartsAt(s, |s| - 1) {
      JustOpened(s);
      a := |s| - 1;
    } else {
      GoesOn(s);
      a := Opened(s[..|s| - 1]);
      OpenLater(s, a);
    }
  }

  // ------------------------------------------------------------------ pieces

  /** The pieces with commas between them. */
  function Joined(pieces: seq<string>): string {
    if pieces == [] then ""
    else if |pieces| == 1 then pieces[0]
    else Joined(pieces[..|pieces| - 1]) + "," + pieces[|pieces| - 1]
  }

  function Commas(s: string): nat {
    if s == "" then 0
    else Commas(s[..|s| - 1]) + if s[|s| - 1] == ',' && !Odd(s[..|s| - 1]) then 1 else 0
  }

  /** Nothing is lost between the pieces of a row, and there is one for each comma outside quotes and one more. */
  lemma {:induction false} PiecesJoin(s: string)
    ensures Joined(SplitCommas(s)) == s && |SplitCommas(s)| == Commas(s) + 1
    decreases |s|
  {
    hide Odd;
    if s != "" {
      var init, c := s[..|s| - 1], s[|s| - 1];
      PiecesJoin(init);
      var pieces := SplitCommas(init);
      if c == ',' && !Odd(init) {
        assert (pieces + [""])[..|pieces|] == pieces;
      } else {
        JoinedGrows(pieces, [c]);
      }
      assert s == init + [c];
    }
  }

  lemma JoinedGrows(pieces: seq<string>, more: string)
    requires pieces != []
    ensures Joined(Grow(pieces, more)) == Joined(pieces) + more
  {
    var n := |pieces| - 1;
    assert Grow(pieces, more)[..n] == pieces[..n];
    if n > 0 {
      assert Joined(pieces[..n]) + "," + (pieces[n] + more) == Joined(pieces[..n]) + "," + pieces[n] + more;
    }
  }

  // ------------------------------------------------------------------ fields

  /** Every literal is one of its column's type. */
  predicate AllParse(vals: seq<string>, columns: seq<Column>)
    requires |vals| == |columns|
  {
    forall i :: 0 <= i < |columns| ==> ParseVal(vals[i], columns[i].typ).Ok?
  }

  /** The key that goes with these values: that of the last primary column. */
  function KeyFor(vals: seq<string>, columns: seq<Column>): string
    requires |vals| == |columns| && AllParse(vals, columns)
  {
    if columns == [] then ""
    else
      var n := |columns| - 1;
      if columns[n].primary then ValueKey(ParseVal(vals[n], columns[n].typ).value) else KeyFor(vals[..n], columns[..n])
  }

  /** The row has under each name the value of its literal, and nothing else. */
  ghost predicate Carries(row: Row, vals: seq<string>, columns: seq<Column>)
    requires |vals| == |columns| && AllParse(vals, columns)
  {
    && (forall c <- row :: HasColumn(columns, c))
    && forall i :: 0 <= i < |columns| ==>
         columns[i].name in row && row[columns[i].name] == ParseVal(vals[i], columns[i].typ).value
  }

  lemma CarriesMore(row: Row, vals: seq<string>, columns: seq<Column>)
    requires |vals| == |columns| && columns != [] && AllParse(vals, columns) && NamesDistinct(columns)
    requires var n := |columns| - 1;
             AllParse(vals[..n], columns[..n]) && Carries(row, vals[..n], columns[..n])
    ensures var n := |columns| - 1;
            Carries(row[columns[n].name := ParseVal(vals[n], columns[n].typ).value], vals, columns)
  {
    hide ParseVal;
    var n := |columns| - 1;
    var first := columns[..n];
    forall i | 0 <= i < n
      ensures columns[i].name != columns[n].name && first[i] == columns[i] && vals[..n][i] == vals[i] {}
    forall c | HasColumn(first, c) ensures HasColumn(columns, c) {
      var i :| 0 <= i < n && first[i].name == c;
      assert columns[i].name == c;
    }
    assert HasColumn(columns, columns[n].name);
  }

  /** Literals make a row exactly when each is one of its column's type, and then the row carries their values,
      under the key of the primary one. */
  lemma {:induction false} FieldsIff(vals: seq<string>, columns: seq<Column>)
    requires |vals| == |columns|
    ensures Fields(vals, columns).Ok? <==> AllParse(vals, columns)
    ensures AllParse(vals, columns) ==> Fields(vals, columns).value.key == KeyFor(vals, columns)
    ensures AllParse(vals, columns) && NamesDistinct(columns) ==>
              Carries(Fields(vals, columns).value.row, vals, columns)
    decreases |columns|
  {
    hide ParseVal, ValueKey, Carries;
    if columns == [] {
      CarriesNothing();
    } else {
      var n := |columns| - 1;
      FieldsIff(vals[..n], columns[..n]);
      assert forall i :: 0 <= i < n ==> vals[..n][i] == vals[i] && columns[..n][i] == columns[i];
      if AllParse(vals, columns) && NamesDistinct(columns) {
        CarriesMore(Fields(vals[..n], columns[..n]).value.row, vals, columns);
      }
    }
  }

  lemma CarriesNothing()
    ensures Carries(map[], [], [])
  {
  }

  // ---------------------------------------------------------------- payloads

  /** The row that a group makes by itself. */
  predicate MakesRow(group: string, columns: seq<Column>) {
    var vals := SplitCommas(group);
    |vals| == |columns| && Fields(vals, columns).Ok? && (HasPrimary(columns) ==> Fields(vals, columns).value.key != "")
  }

  function RowMade(group: string, columns: seq<Column>): InsertRow
    requires MakesRow(group, columns)
  {
    Fields(SplitCommas(group), columns).value
  }

  predicate AllMakeRows(groups: seq<string>, columns: seq<Column>) {
    forall i :: 0 <= i < |groups| ==> MakesRow(groups[i], columns)
  }

  /** No two groups have one key. */
  ghost predicate KeysDiffer(groups: seq<string>, columns: seq<Column>)
    requires AllMakeRows(groups, columns)
  {
    forall i, j :: 0 <= i < j < |groups| && RowMade(groups[j], columns).key != "" ==>
      RowMade(groups[i], columns).key != RowMade(groups[j], columns).key
  }

  /** Groups are taken exactly when each makes a row with a key where one is needed, and, unless the last of a
      key is to be kept, no key comes twice; then the rows are theirs in order. */
  lemma {:induction false} RowsIff(groups: seq<string>, columns: seq<Column>, keepLast: bool)
    ensures RowsOf(groups, columns, keepLast).Ok? <==>
            AllMakeRows(groups, columns) && (keepLast || KeysDiffer(groups, columns))
    ensures RowsOf(groups, columns, keepLast).Ok? ==>
              var rows := RowsOf(groups, columns, keepLast).value;
              |rows| == |groups| && forall i :: 0 <= i < |groups| ==> rows[i] == RowMade(groups[i], columns)
    decreases |groups|
  {
    hide Fields, SplitCommas, HasPrimary;
    if groups != [] {
      var n := |groups| - 1;
      var first := groups[..n];
      RowsIff(first, columns, keepLast);
      assert forall i :: 0 <= i < n ==> first[i] == groups[i];
      if RowsOf(first, columns, keepLast).Ok? && MakesRow(groups[n], columns) {
        KeySeen(groups, columns, RowsOf(first, columns, keepLast).value);
      }
    }
  }

  lemma KeySeen(groups: seq<string>, columns: seq<Column>, rows: seq<InsertRow>)
    requires groups != [] && AllMakeRows(groups, columns) && |rows| == |groups| - 1
    requires forall i :: 0 <= i < |rows| ==> rows[i] == RowMade(groups[i], columns)
    ensures var n := |groups| - 1;
            var k := RowMade(groups[n], columns).key;
            && AllMakeRows(groups[..n], columns)
            && (KeysDiffer(groups, columns) <==> KeysDiffer(groups[..n], columns) && (k == "" || !HasKey(rows, k)))
  {
    hide MakesRow, RowMade;
    var n := |groups| - 1;
    var first, k := groups[..n], RowMade(groups[n], columns).key;
    assert forall i :: 0 <= i < n ==> first[i] == groups[i];
    if KeysDiffer(groups, columns) && k != "" {
      forall i | 0 <= i < n ensures rows[i].key != k { assert rows[i] == RowMade(groups[i], columns); }
    }
    if k != "" && !HasKey(rows, k) {
      forall i | 0 <= i < n ensures RowMade(groups[i], columns).key != k { assert rows[i].key != k; }
    }
  }

  /** Which payloads INSERT takes, and what they mean. */
  lemma PayloadIff(raw: string, columns: seq<Column>, keepLast: bool)
    ensures var groups := ScanRows(TrimSpace(raw)).rows;
            && (Meaning(raw, columns, keepLast).Ok? <==>
                groups != [] && AllMakeRows(groups, columns) && (keepLast || KeysDiffer(groups, columns)))
            && (Meaning(raw, columns, keepLast).Ok? ==>
                  var rows := Meaning(raw, columns, keepLast).value;
                  |rows| == |groups| && forall i :: 0 <= i < |groups| ==> rows[i] == RowMade(groups[i], columns))
  {
    hide RowsOf, ScanRows, TrimSpace, MakesRow;
    RowsIff(ScanRows(TrimSpace(raw)).rows, columns, keepLast);
  }
}
